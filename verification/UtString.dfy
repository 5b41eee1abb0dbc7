/** Borders of a string and the skip argument of Knuth-Morris-Pratt. */
module Borders {
  import opened Sequences

  /** The `k` characters before position `i` are also the first `k` characters, and `k < i`. */
  ghost predicate Border(n: string, i: int, k: int) {
    0 <= k < i <= |n| && n[..k] == n[i - k..i]
  }

  /** `v` is what a strong failure table holds at `i`: the longest border of `n[..i]` that is not
      followed by the same character as `n[..i]` itself, or -1 when every border is. */
  ghost predicate StrongAt(n: string, i: int, v: int) {
    && 0 <= i < |n|
    && -1 <= v < i
    && (v >= 0 ==> Border(n, i, v) && n[v] != n[i])
    && forall k {:trigger Border(n, i, k)} :: v < k && Border(n, i, k) ==> n[k] == n[i]
  }

  /** `v` is the longest border of `n[..i]`; the empty prefix has none, which counts as -1. */
  ghost predicate LongestBorder(n: string, i: int, v: int) {
    && 0 <= i <= |n|
    && -1 <= v < i
    && (v == -1 <==> i == 0)
    && (v >= 0 ==> Border(n, i, v))
    && forall k {:trigger Border(n, i, k)} :: v < k ==> !Border(n, i, k)
  }

  lemma BorderOfBorder(n: string, i: int, j: int, k: int)
    requires Border(n, i, j) && k < j
    ensures Border(n, i, k) <==> Border(n, j, k)
  {
    if 0 <= k {
      assert n[j - k..j] == n[..j][j - k..];
      assert n[i - k..i] == n[i - j..i][j - k..];
    }
  }

  lemma BorderExtend(n: string, i: int, k: int)
    requires 0 <= k < i < |n|
    ensures Border(n, i + 1, k + 1) <==> Border(n, i, k) && n[k] == n[i]
  {
    assert n[..k + 1] == n[..k] + [n[k]];
    assert n[i - k..i + 1] == n[i - k..i] + [n[i]];
    if n[..k + 1] == n[i - k..i + 1] {
      assert n[k] == n[..k + 1][k] == n[i - k..i + 1][k] == n[i];
      assert n[..k] == n[..k + 1][..k] == n[i - k..i + 1][..k] == n[i - k..i];
    }
  }

  /** While the candidates above `j` are ruled out by the next character `c`, falling back from `j`
      to the strong table's entry rules out everything above that entry too. */
  ghost predicate RuledOutAbove(n: string, i: int, c: char, j: int) {
    0 <= i <= |n| && forall k {:trigger Border(n, i, k)} :: j < k < |n| && Border(n, i, k) ==> n[k] != c
  }

  lemma FallBack(n: string, i: int, c: char, j: int, v: int)
    requires 0 <= j < |n| && Border(n, i, j) && n[j] != c
    requires RuledOutAbove(n, i, c, j) && StrongAt(n, j, v)
    ensures RuledOutAbove(n, i, c, v)
    ensures v >= 0 ==> Border(n, i, v)
  {
    forall k | v < k < |n| && Border(n, i, k) ensures n[k] != c {
      if k < j { BorderOfBorder(n, i, j, k); }
    }
    if v >= 0 { BorderOfBorder(n, i, j, v); }
  }

  /** Once a border whose next character is `n[i]` is reached (or none is left), stepping both
      indices gives the longest border of the next prefix. */
  lemma NextLongest(n: string, i: int, j: int)
    requires 0 <= i < |n| && -1 <= j < i
    requires j >= 0 ==> Border(n, i, j) && n[j] == n[i]
    requires RuledOutAbove(n, i, n[i], j)
    ensures LongestBorder(n, i + 1, j + 1)
  {
    if j >= 0 {
      BorderExtend(n, i, j);
    }
    forall k {:trigger Border(n, i + 1, k)} | 0 < k <= i
      ensures Border(n, i + 1, k) ==> Border(n, i, k - 1) && n[k - 1] == n[i] {
      BorderExtend(n, i, k - 1);
    }
  }

  /** The entry the builder stores at `i`: the longest border `j` itself when its next character
      differs from `n[i]`, and the entry already stored at `j` otherwise. */
  lemma EntryIsStrong(n: string, i: int, j: int, tj: int)
    requires 0 < i < |n| && LongestBorder(n, i, j) && StrongAt(n, j, tj)
    ensures n[i] == n[j] ==> StrongAt(n, i, tj)
    ensures n[i] != n[j] ==> StrongAt(n, i, j)
  {
    if n[i] == n[j] {
      if tj >= 0 { BorderOfBorder(n, i, j, tj); }
      forall k | tj < k && Border(n, i, k) ensures n[k] == n[i] {
        if k < j { BorderOfBorder(n, i, j, k); } else { assert k == j; }
      }
    }
  }

  // ---- searching ----

  /** The last `i` characters read before position `j` are the first `i` of the needle. */
  ghost predicate Matched(h: string, n: string, i: int, j: int) {
    0 <= i <= |n| && i <= j <= |h| && n[..i] == h[j - i..j]
  }

  ghost predicate NoneBefore(h: string, n: string, p: int) {
    forall q :: q < p ==> !OccursAt(h, n, q)
  }

  /** An occurrence that starts inside the matched characters and covers position `j` makes its
      overlap with them a border of the needle's first `i` characters. */
  lemma OverlapIsBorder(h: string, n: string, i: int, j: int, q: int)
    requires Matched(h, n, i, j) && i < |n| && j < |h|
    requires j - i <= q <= j && OccursAt(h, n, q)
    ensures n[j - q] == h[j]
    ensures j - q < i ==> Border(n, i, j - q)
  {
    var k := j - q;
    assert n[k] == h[q..q + |n|][k];
    if k < i {
      assert n[..k] == h[q..q + |n|][..k] == h[q..j];
      assert n[i - k..i] == n[..i][i - k..] == h[j - i..j][i - k..] == h[q..j];
    }
  }

  /** Skip safety: after a mismatch no occurrence starts between the old and the new alignment. */
  lemma SkipIsSafe(h: string, n: string, i: int, j: int, v: int)
    requires Matched(h, n, i, j) && i < |n| && j < |h| && h[j] != n[i]
    requires StrongAt(n, i, v) && NoneBefore(h, n, j - i)
    ensures NoneBefore(h, n, j - v)
    ensures v >= 0 ==> Matched(h, n, v, j)
  {
    if v >= 0 {
      assert n[..v] == n[i - v..i] == n[..i][i - v..] == h[j - i..j][i - v..] == h[j - v..j];
    }
    forall q | j - i <= q <= j ensures OccursAt(h, n, q) ==> n[j - q] == h[j] && (j - q < i ==> Border(n, i, j - q)) {
      if OccursAt(h, n, q) { OverlapIsBorder(h, n, i, j, q); }
    }
  }

  lemma MatchedExtend(h: string, n: string, i: int, j: int)
    requires Matched(h, n, i, j) && i < |n| && j < |h| && h[j] == n[i]
    ensures Matched(h, n, i + 1, j + 1)
  {
    assert n[..i + 1] == n[..i] + [n[i]];
    assert h[j - i..j + 1] == h[j - i..j] + [h[j]];
  }

  lemma NothingMatched(h: string, n: string)
    ensures Matched(h, n, 0, 0) && NoneBefore(h, n, 0)
  {}

  /** After the inner loop both indices move on: one more character matches, or none does. */
  lemma MatchedStep(h: string, n: string, i: int, j: int)
    requires -1 <= i < |n| && 0 <= j < |h| && NoneBefore(h, n, j - i)
    requires i >= 0 ==> Matched(h, n, i, j) && n[i] == h[j]
    ensures Matched(h, n, i + 1, j + 1) && NoneBefore(h, n, j + 1 - (i + 1))
  {
    if i >= 0 { MatchedExtend(h, n, i, j); }
  }

  // ---- mirror images ----

  function Reverse(s: string): (r: string)
    ensures |r| == |s|
    ensures forall k :: 0 <= k < |s| ==> r[k] == s[|s| - 1 - k]
  {
    seq(|s|, k requires 0 <= k < |s| => s[|s| - 1 - k])
  }

  lemma OccursReversed(h: string, n: string, p: int)
    ensures OccursAt(h, n, p) <==> OccursAt(Reverse(h), Reverse(n), |h| - |n| - p)
  {
    var rh, rn, q := Reverse(h), Reverse(n), |h| - |n| - p;
    if 0 <= p && p + |n| <= |h| {
      forall k | 0 <= k < |n|
        ensures h[p..p + |n|][k] == rh[q..q + |n|][|n| - 1 - k] && n[k] == rn[|n| - 1 - k] {}
      if h[p..p + |n|] == n {
        assert rh[q..q + |n|] == rn;
      }
      if rh[q..q + |n|] == rn {
        assert h[p..p + |n|] == n;
      }
    }
  }
}

/** Substring search of src/external/utstring.h. */
module UtString {
  import opened MachineInts
  import opened Borders
  import opened Sequences

  /** A table of the builder: strong entries below the needle's length, and at the end the longest
      border of the whole needle. */
  ghost predicate IsTable(n: string, t: seq<int>) {
    && |t| == |n| + 1
    && (forall x :: 0 <= x < |n| ==> StrongAt(n, x, t[x]))
    && LongestBorder(n, |n|, t[|n|])
  }

  /** From `k` on `s` is `t` read backwards, with every index counted from the other end of a needle of
      length `m`: how a right-to-left table relates to the left-to-right table of the reversed needle. */
  ghost predicate Mirrors(m: int, t: seq<int>, s: seq<int>, k: int) {
    k >= 0 && |s| == k + |t| && forall x :: 0 <= x < |t| ==> t[x] == m - 1 - s[|s| - 1 - x]
  }

  /** A run of the builder that has reached index `i` with `j` the longest border so far, and `t`
      the entries stored up to `i`. */
  ghost predicate Building(n: string, i: int, j: int, t: seq<int>) {
    && 0 <= i <= |n| && |t| == i + 1
    && LongestBorder(n, i, j)
    && (forall x :: 0 <= x <= i && x < |n| ==> StrongAt(n, x, t[x]))
    && (i == |n| ==> t[i] == j)
  }

  /** The inner loop has stopped at `j`, so every longer border of `n[..i]` is ruled out. */
  ghost predicate Fallen(n: string, i: int, j: int) {
    && 0 <= i < |n| && -1 <= j < i
    && (j >= 0 ==> Border(n, i, j))
    && RuledOutAbove(n, i, n[i], j)
  }

  /** The entry stored at `i + 1`. */
  function NewEntry(n: string, i: int, j: int, t: seq<int>): int
    requires 0 <= j <= i < |n| && j < |t|
  {
    if i + 1 < |n| && n[i + 1] == n[j] then t[j] else j
  }

  lemma FallStep(n: string, i: int, j: int, t: seq<int>)
    requires 0 <= j && Fallen(n, i, j) && n[i] != n[j]
    requires |t| == i + 1 && StrongAt(n, j, t[j])
    ensures Fallen(n, i, t[j])
  {
    FallBack(n, i, n[i], j, t[j]);
  }

  lemma BuildStep(n: string, i: int, j0: int, j: int, t: seq<int>)
    requires i < |n| && Building(n, i, j0, t)
    requires Fallen(n, i, j) && (j >= 0 ==> n[j] == n[i])
    ensures j + 1 <= i && Building(n, i + 1, j + 1, t + [NewEntry(n, i, j + 1, t)])
  {
    NextLongest(n, i, j);
    hide StrongAt, LongestBorder;
    if i + 1 < |n| {
      EntryIsStrong(n, i + 1, j + 1, t[j + 1]);
    }
  }

  lemma BuildStart(n: string)
    requires |n| > 0
    ensures Building(n, 0, -1, [-1])
  {}

  lemma BuildDone(n: string, j: int, t: seq<int>)
    requires Building(n, |n|, j, t)
    ensures IsTable(n, t)
  {}

  method BuildTable(needle: string, table: array<int>) returns (ghost fallbacks: nat)
    requires |needle| > 0 && table.Length == |needle| + 1
    modifies table
    ensures IsTable(needle, table[..])
    ensures fallbacks <= |needle|
  {
    var i, j := 0, -1;
    table[i] := j;
    fallbacks := 0;
    while i < |needle|
      invariant 0 <= i <= |needle| && Building(needle, i, j, table[..i + 1])
      invariant fallbacks <= i - j - 1
    {
      ghost var t, j0 := table[..i + 1], j;
      while j > -1 && needle[i] != needle[j]
        invariant Fallen(needle, i, j)
        invariant fallbacks <= i - j - 1
        decreases j
        modifies {}
      {
        FallStep(needle, i, j, t);
        j := table[j];
        fallbacks := fallbacks + 1;
      }
      BuildStep(needle, i, j0, j, t);
      i := i + 1;
      j := j + 1;
      if i < |needle| {
        if needle[i] == needle[j] {
          table[i] := table[j];
        } else {
          table[i] := j;
        }
      } else {
        table[i] := j;
      }
      assert table[..i + 1] == t + [NewEntry(needle, i - 1, j, t)];
    }
    assert table[..] == table[..i + 1];
  }

  /** What the right-to-left builder stores at `i + 1`, given the entries after it. */
  function NewEntryR(n: string, i: int, j: int, table: seq<int>): int
    requires -1 <= i < j < |n| && |table| == |n| + 1
  {
    if i >= 0 && n[i] == n[j] then table[j + 1] else j
  }

  lemma NewEntryMirrors(n: string, i: int, j: int, table: seq<int>, gi: int, gj: int, t: seq<int>)
    requires i + 1 == |n| - 1 - gi && j + 1 == |n| - 1 - gj && -1 <= gj < gi < |n| && j < |n|
    requires |t| == gi + 1 && |table| == |n| + 1 && Mirrors(|n|, t, table, i + 2)
    ensures Mirrors(|n|, t + [NewEntry(Reverse(n), gi, gj + 1, t)], table[i + 1 := NewEntryR(n, i, j, table)], i + 1)
  {}

  /** The inner loop of the right-to-left builder, on the run over `r` that it mirrors. */
  method FallBackR(needle: string, table: array<int>, i: int, j0: int,
                   ghost r: string, ghost gi: int, ghost gj0: int, ghost t: seq<int>)
    returns (j: int, ghost gj: int, ghost fallbacks: nat)
    requires 0 <= i < |needle| && table.Length == |needle| + 1 && r == Reverse(needle)
    requires i == |r| - 1 - gi && j0 == |r| - 1 - gj0
    requires Building(r, gi, gj0, t) && Mirrors(|r|, t, table[..], i + 1)
    ensures -1 <= gj < gi
    ensures j == |r| - 1 - gj && fallbacks <= gj0 - gj
    ensures Fallen(r, gi, gj) && (gj >= 0 ==> r[gj] == r[gi])
  {
    j, gj := j0, gj0;
    fallbacks := 0;
    while j < |needle| && needle[i] != needle[j]
      invariant j == |r| - 1 - gj && Fallen(r, gi, gj)
      invariant fallbacks <= gj0 - gj
      decreases gj
    {
      FallStep(r, gi, gj, t);
      assert t[gj] == |r| - 1 - table[..][j + 1];
      j := table[j + 1];
      gj := t[gj];
      fallbacks := fallbacks + 1;
    }
  }

  /** The branches that end the outer loop's body. */
  method StoreR(needle: string, table: array<int>, i: int, j: int)
    requires -1 <= i < j <= |needle| - 1 && table.Length == |needle| + 1
    modifies table
    ensures table[..] == old(table[..])[i + 1 := NewEntryR(needle, i, j, old(table[..]))]
  {
    if i >= 0 {
      if needle[i] == needle[j] {
        table[i + 1] := table[j + 1];
      } else {
        table[i + 1] := j;
      }
    } else {
      table[i + 1] := j;
    }
  }

  /** They store the entry that mirrors the other run's. */
  method StoreMirrored(needle: string, table: array<int>, i: int, j: int,
                       ghost gi: int, ghost gj: int, ghost t: seq<int>)
    requires -1 <= i < j <= |needle| - 1 && table.Length == |needle| + 1
    requires i + 1 == |needle| - 1 - gi && j + 1 == |needle| - 1 - gj && -1 <= gj < gi < |needle| && |t| == gi + 1
    requires Mirrors(|needle|, t, table[..], i + 2)
    modifies table
    ensures Mirrors(|needle|, t + [NewEntry(Reverse(needle), gi, gj + 1, t)], table[..], i + 1)
  {
    hide *;
    NewEntryMirrors(needle, i, j, table[..], gi, gj, t);
    StoreR(needle, table, i, j);
  }

  lemma MirrorsStart(m: nat, s: seq<int>)
    requires |s| == m + 1 && s[m] == m
    ensures Mirrors(m, [-1], s, m)
  {}

  method BuildTableR(needle: string, table: array<int>) returns (ghost fallbacks: nat)
    requires |needle| > 0 && table.Length == |needle| + 1
    modifies table
    ensures exists t :: IsTable(Reverse(needle), t) && Mirrors(|needle|, t, table[..], 0)
    ensures fallbacks <= |needle|
  {
    hide *;
    // the left-to-right run on the reversed needle that this run mirrors: its indices and its table
    ghost var m, r, gi, gj, t := |needle|, Reverse(needle), 0, -1, [-1];
    var i := |needle| - 1;
    var j := i + 1;
    table[i + 1] := j;
    fallbacks := 0;
    BuildStart(r);
    MirrorsStart(m, table[..]);
    while i >= 0
      invariant i == m - 1 - gi && j == m - 1 - gj
      invariant -1 <= gj < gi <= m == |r| && |t| == gi + 1
      invariant Building(r, gi, gj, t)
      invariant Mirrors(m, t, table[..], i + 1)
      invariant fallbacks <= gi - gj - 1
      decreases i
    {
      ghost var steps, gj0 := 0, gj;
      j, gj, steps := FallBackR(needle, table, i, j, r, gi, gj, t);
      fallbacks := fallbacks + steps;
      BuildStep(r, gi, gj0, gj, t);
      i, j := i - 1, j - 1;
      StoreMirrored(needle, table, i, j, gi, gj, t);
      t := t + [NewEntry(r, gi, gj + 1, t)];
      gi, gj := gi + 1, gj + 1;
    }
    BuildDone(r, gj, t);
  }

  // ---- searching with a table ----

  /** `r` is the first position from `from` on where the needle occurs ending by `limit`, or -1 when
      there is none. */
  ghost predicate IsLeftmost(h: string, n: string, from: int, limit: int, r: int) {
    && (r == -1 || (from <= r && OccursAt(h, n, r) && r + |n| <= limit))
    && forall q :: from <= q && OccursAt(h, n, q) && q + |n| <= limit ==> r != -1 && r <= q
  }

  /** `r` is the last position where the needle occurs in `h`, or -1 when there is none. */
  ghost predicate IsRightmost(h: string, n: string, r: int) {
    && (r == -1 || OccursAt(h, n, r))
    && forall q :: OccursAt(h, n, q) ==> r != -1 && q <= r
  }

  /** The last occurrence is the first one of the reversed texts, counted from the other end. */
  lemma MirroredSearch(h: string, n: string, r: int)
    ensures IsRightmost(h, n, r) <==>
            (r == -1 || 0 <= r <= |h| - |n|) &&
            IsLeftmost(Reverse(h), Reverse(n), 0, |h|, if r == -1 then -1 else |h| - |n| - r)
  {
    OccursReversed(h, n, r);
    forall q ensures OccursAt(h, n, q) <==> OccursAt(Reverse(h), Reverse(n), |h| - |n| - q) {
      OccursReversed(h, n, q);
    }
    forall q ensures OccursAt(Reverse(h), Reverse(n), q) <==> OccursAt(h, n, |h| - |n| - q) {
      OccursReversed(h, n, |h| - |n| - q);
    }
  }

  /** A needle has one table, so the two builders' tables are mirror images of each other. */
  lemma TableIsUnique(n: string, t1: seq<int>, t2: seq<int>)
    requires IsTable(n, t1) && IsTable(n, t2)
    ensures t1 == t2
  {
    forall x | 0 <= x < |n| ensures t1[x] == t2[x] {
      assert StrongAt(n, x, t1[x]) && StrongAt(n, x, t2[x]);
    }
  }

  /** What the left-to-right search answers. It compares positions with the haystack's length cast to `int`,
      and takes the needle to be matched after as many characters as its length cast to `int`: it finds the
      first place for that many characters of the needle, if it ends by the cast length and leaves room for
      the whole needle. With a cast length that is not positive it stops after one character. */
  ghost predicate FoundIs(h: string, n: string, r: int)
    requires n != ""
  {
    var m, limit := ToInt32(|n|), ToInt32(|h|);
    if m > 0 then IsLeftmost(h, n[..m], 0, Min(limit, |h| - |n| + m), r)
    else if limit > 0 && |h| >= |n| then r == if h[0] == n[0] then 0 else 1
    else r == -1
  }

  /** Needles shorter than 2^31 bytes are matched as a whole. */
  lemma FoundShort(h: string, n: string, r: int)
    requires 0 < |n| < TWO31
    ensures FoundIs(h, n, r) <==> IsLeftmost(h, n, 0, ToInt32(|h|), r)
  {
    assert n[..|n|] == n;
  }

  lemma {:induction false} StrongPrefix(n: string, m: nat, i: int, v: int)
    requires i < m <= |n| && StrongAt(n, i, v)
    ensures StrongAt(n[..m], i, v)
  {
    forall k ensures Border(n[..m], i, k) <==> Border(n, i, k) {
      if 0 <= k < i {
        assert n[..m][..k] == n[..k] && n[..m][i - k..i] == n[i - k..i];
      }
    }
  }

  /** As much of the needle as the search compares. */
  function Compared(n: string): (c: string)
    ensures c <= n && (n != "" ==> c != "")
  {
    var m := ToInt32(|n|);
    if 0 < m < |n| then n[..m] else n
  }

  /** The search has matched `i` characters before position `j`; with a cast length that is not positive it
      reads one character. */
  ghost predicate Searching(h: string, n: string, i: int, j: int)
    requires n != ""
  {
    && i <= |Compared(n)|
    && Matched(h, Compared(n), i, j) && NoneBefore(h, Compared(n), j - i)
    && (ToInt32(|n|) > 0 || i == j == 0 || (0 < j == 1 <= |h| && i == if h[0] == n[0] then 1 else 0))
  }

  lemma SearchStarts(h: string, n: string)
    requires n != ""
    ensures Searching(h, n, 0, 0)
  {}

  /** The search stops at a match. */
  lemma FindMatched(h: string, n: string, i: int, j: int)
    requires n != "" && 0 < j <= ToInt32(|h|) && |h| - j + i >= |n|
    requires Searching(h, n, i, j) && i >= ToInt32(|n|)
    ensures FoundIs(h, n, j - i) && j - i >= 0
  {
    if ToInt32(|n|) > 0 { assert Compared(n) == n[..ToInt32(|n|)]; }
  }

  /** The search stops for want of room. */
  lemma FindNone(h: string, n: string, i: int, j: int)
    requires n != "" && (j >= ToInt32(|h|) || |h| - j + i < |n|)
    requires Searching(h, n, i, j) && (i < ToInt32(|n|) || i == j == 0)
    ensures FoundIs(h, n, -1)
  {
    Int32AtMost(|n|);
    if ToInt32(|n|) > 0 { assert Compared(n) == n[..ToInt32(|n|)]; }
  }

  lemma FindEnds(h: string, n: string, i: int, j: int, found: int)
    requires n != "" && Searching(h, n, i, j)
    requires if found >= 0 then found == j - i && 0 < j <= ToInt32(|h|) && |h| - j + i >= |n| && i >= ToInt32(|n|)
             else found == -1 && (j >= ToInt32(|h|) || |h| - j + i < |n|) && (i < ToInt32(|n|) || i == j == 0)
    ensures FoundIs(h, n, found)
  {
    if found >= 0 { FindMatched(h, n, i, j); } else { FindNone(h, n, i, j); }
  }

  lemma SearchingBounds(h: string, n: string, i: int, j: int)
    requires n != "" && Searching(h, n, i, j)
    ensures 0 <= i <= |n| && i <= j <= |h|
  {}

  /** The inner loop of the left-to-right search. */
  method Skip(haystack: string, needle: string, table: array<int>, i0: int, j: int, ghost t: seq<int>)
    returns (i: int, ghost fallbacks: nat)
    requires needle != "" && table[..] == t && IsTable(needle, t) && 0 <= i0 && j < |haystack|
    requires Searching(haystack, needle, i0, j) && (i0 < ToInt32(|needle|) || i0 == j == 0)
    ensures -1 <= i && fallbacks <= i0 - i
    ensures Searching(haystack, needle, i + 1, j + 1)
  {
    i, fallbacks := i0, 0;
    ghost var n := Compared(needle);
    Int32AtMost(|needle|);
    assert n == needle[..|n|] && i0 < |n|;
    hide Matched, NoneBefore, Compared;
    while i > -1 && needle[i] != haystack[j]
      invariant -1 <= i <= i0
      invariant i >= 0 ==> Matched(haystack, n, i, j)
      invariant NoneBefore(haystack, n, j - i)
      invariant fallbacks <= i0 - i
      invariant i == i0 || (needle[i0] != haystack[j] && i < i0)
      decreases i
    {
      StrongPrefix(needle, |n|, i, t[i]);
      SkipIsSafe(haystack, n, i, j, t[i]);
      i := table[i];
      fallbacks := fallbacks + 1;
    }
    MatchedStep(haystack, n, i, j);
  }

  /** The left-to-right search. */
  method FindWithTable(haystack: string, needle: string, table: array<int>)
    returns (found: int, ghost fallbacks: nat)
    requires needle != "" && IsTable(needle, table[..])
    ensures fallbacks <= |haystack|
    ensures FoundIs(haystack, needle, found)
  {
    hide *;
    found := -1;
    fallbacks := 0;
    var i, j := 0, 0;
    ghost var t := table[..];
    SearchStarts(haystack, needle);
    Int32AtMost(|haystack|);
    while j < ToInt32(|haystack|) && (|haystack| - j) + i >= |needle|
      invariant Searching(haystack, needle, i, j) && 0 <= i <= j <= |haystack|
      invariant i < ToInt32(|needle|) || i == j == 0
      invariant fallbacks + i <= j
      invariant table[..] == t && IsTable(needle, t)
    {
      ghost var steps;
      i, steps := Skip(haystack, needle, table, i, j, t);
      fallbacks := fallbacks + steps;
      i := i + 1;
      j := j + 1;
      SearchingBounds(haystack, needle, i, j);
      if i >= ToInt32(|needle|) {
        found := j - i;
        break;
      }
    }
    FindEnds(haystack, needle, i, j, found);
  }

  /** At `p` the haystack has as many of the needle's first characters as its cast length says. */
  ghost predicate BeginsAt(h: string, n: string, p: int) {
    0 <= p <= |h| - |n| && forall k :: 0 <= k < ToInt32(|n|) && k < |n| ==> n[k] == h[p + k]
  }

  /** The haystack's last `|n|` characters begin like the needle: the right-to-left search compares no
      other characters of a needle of 2^31 bytes or more. */
  ghost predicate Blind(h: string, n: string) {
    BeginsAt(h, n, |h| - |n|)
  }

  /** Where falling back from `g` characters of the needle's end ends. Of a needle of 2^31 bytes and more
      the search takes the last characters for equal to whatever it meets. */
  ghost function FallR(h: string, n: string, t: seq<int>, g: int, q: nat): (k: int)
    requires q < |h| && -1 <= g < |n| && IsTable(Reverse(n), t)
    ensures -1 <= k <= g
    decreases g + 1
  {
    if g < 0 || |n| - 1 - g >= ToInt32(|n|) || n[|n| - 1 - g] == h[|h| - 1 - q] then g
    else
      assert StrongAt(Reverse(n), g, t[g]);
      FallR(h, n, t, t[g], q)
  }

  /** The answer from the point on where `q` characters of the haystack are read and `g` of the needle taken
      for matched, both counted from the end. */
  ghost function RunR(h: string, n: string, t: seq<int>, g: nat, q: nat): int
    requires g < |n| && IsTable(Reverse(n), t)
    decreases |h| - q
  {
    if q >= |h| || q - g > |h| - |n| then -1
    else
      var k := FallR(h, n, t, g, q) + 1;
      if k == |n| then |h| - (q + 1) else RunR(h, n, t, k, q + 1)
  }

  /** The search over the needle's table, of which there is just one, answers `r`. */
  ghost predicate RunsTo(h: string, n: string, r: int)
    requires n != ""
  {
    forall t {:trigger IsTable(Reverse(n), t)} | IsTable(Reverse(n), t) :: r == RunR(h, n, t, 0, 0)
  }

  /** What the right-to-left search answers: right for needles shorter than 2^31 bytes; of longer ones it
      leaves the last characters unread and so reports a place where it has compared only the first ones. */
  ghost predicate FoundIsR(h: string, n: string, r: int) {
    && (|n| < TWO31 || |n| > |h| ==> IsRightmost(h, n, r))
    && (|n| >= TWO31 ==> r == -1 || BeginsAt(h, n, r))
    && (|n| >= TWO31 && Blind(h, n) ==> r == |h| - |n|)
    && (|n| >= TWO31 ==> RunsTo(h, n, r))
  }

  /** With the needle's end laid `d` characters before the haystack's end, the needle's character `x` from
      the end is the haystack's below it, or is none of those compared. */
  ghost predicate Agrees(h: string, n: string, d: int, x: int) {
    && 0 <= x < |n| && 0 <= d + x < |h|
    && (|n| - 1 - x >= ToInt32(|n|) || n[|n| - 1 - x] == h[|h| - 1 - (d + x)])
  }

  /** Of the needle's last `g` characters those that are compared stand there. */
  ghost predicate AllAgree(h: string, n: string, d: int, g: int) {
    0 <= g <= |n| && 0 <= d <= |h| - g && forall x :: 0 <= x < g ==> Agrees(h, n, d, x)
  }

  lemma AgreeNone(h: string, n: string, d: nat)
    requires d <= |h|
    ensures AllAgree(h, n, d, 0)
  {}

  lemma AgreeNext(h: string, n: string, d: int, g: nat)
    requires AllAgree(h, n, d, g) && g < |n| && d + g < |h|
    requires |n| - 1 - g >= ToInt32(|n|) || n[|n| - 1 - g] == h[|h| - 1 - (d + g)]
    ensures AllAgree(h, n, d, g + 1)
  {}

  lemma AgreeAll(h: string, n: string, d: int)
    requires AllAgree(h, n, d, |n|)
    ensures BeginsAt(h, n, |h| - d - |n|)
  {
    forall i | 0 <= i < ToInt32(|n|) && i < |n| ensures n[i] == h[|h| - d - |n| + i] {
      assert Agrees(h, n, d, |n| - 1 - i);
    }
  }

  lemma AgreeBorder(h: string, n: string, d: int, g: nat, v: nat)
    requires AllAgree(h, n, d, g) && g < |n| && v < g && Border(Reverse(n), g, v)
    ensures AllAgree(h, n, d + g - v, v)
  {
    var rn, e := Reverse(n), d + g - v;
    forall x | 0 <= x < v ensures Agrees(h, n, e, x) {
      assert rn[..v][x] == rn[g - v..g][x];
      assert Agrees(h, n, d, g - v + x);
    }
  }

  /** Falling back keeps what is compared: the table's entry is a border. */
  lemma {:induction false} FallKeeps(h: string, n: string, t: seq<int>, g: int, q: nat)
    requires q < |h| && -1 <= g < |n| && IsTable(Reverse(n), t) && (g >= 0 ==> AllAgree(h, n, q - g, g))
    ensures var k := FallR(h, n, t, g, q); AllAgree(h, n, q - k, k + 1)
    decreases g + 1
  {
    hide AllAgree, Border, LongestBorder;
    if g < 0 {
      AgreeNone(h, n, q + 1);
    } else if |n| - 1 - g >= ToInt32(|n|) || n[|n| - 1 - g] == h[|h| - 1 - q] {
      AgreeNext(h, n, q - g, g);
    } else {
      assert StrongAt(Reverse(n), g, t[g]);
      if t[g] >= 0 { AgreeBorder(h, n, q - g, g, t[g]); }
      FallKeeps(h, n, t, t[g], q);
    }
  }

  /** A place that the search reports begins like the needle. */
  lemma {:induction false} RunBegins(h: string, n: string, t: seq<int>, g: nat, q: nat)
    requires g < |n| && IsTable(Reverse(n), t) && AllAgree(h, n, q - g, g)
    ensures var r := RunR(h, n, t, g, q); r == -1 || BeginsAt(h, n, r)
    decreases |h| - q
  {
    hide AllAgree, BeginsAt, FallR, IsTable;
    if q >= |h| || q - g > |h| - |n| {
    } else {
      FallKeeps(h, n, t, g, q);
      var k := FallR(h, n, t, g, q) + 1;
      if k == |n| {
        AgreeAll(h, n, q + 1 - k);
      } else {
        RunBegins(h, n, t, k, q + 1);
      }
    }
  }

  /** If the last place begins like the needle, it is the one reported. */
  lemma {:induction false} RunBlind(h: string, n: string, t: seq<int>, g: nat)
    requires g < |n| && IsTable(Reverse(n), t) && Blind(h, n)
    ensures RunR(h, n, t, g, g) == |h| - |n|
    decreases |n| - g
  {
    var i := |n| - 1 - g;
    assert i < ToInt32(|n|) ==> n[i] == h[|h| - |n| + i];
    assert FallR(h, n, t, g, g) == g;
    if g + 1 == |n| {
    } else {
      RunBlind(h, n, t, g + 1);
    }
  }

  lemma RunAnswers(h: string, n: string, t: seq<int>, r: int)
    requires n != "" && IsTable(Reverse(n), t) && r == RunR(h, n, t, 0, 0)
    ensures r == -1 || BeginsAt(h, n, r)
    ensures Blind(h, n) ==> r == |h| - |n|
    ensures RunsTo(h, n, r)
  {
    RunBegins(h, n, t, 0, 0);
    if Blind(h, n) { RunBlind(h, n, t, 0); }
    forall u | IsTable(Reverse(n), u) ensures r == RunR(h, n, u, 0, 0) {
      TableIsUnique(Reverse(n), t, u);
    }
  }

  lemma RunStep(h: string, n: string, t: seq<int>, g: nat, q: nat)
    requires g < |n| && IsTable(Reverse(n), t)
    ensures RunR(h, n, t, g, q)
            == if q >= |h| || q - g > |h| - |n| then -1
               else if FallR(h, n, t, g, q) + 1 == |n| then |h| - (q + 1)
               else RunR(h, n, t, FallR(h, n, t, g, q) + 1, q + 1)
  {}

  lemma FallsNoMore(h: string, n: string, t: seq<int>, g: int, q: nat)
    requires q < |h| && -1 <= g < |n| && IsTable(Reverse(n), t)
    requires g < 0 || |n| - 1 - g >= ToInt32(|n|) || n[|n| - 1 - g] == h[|h| - 1 - q]
    ensures FallR(h, n, t, g, q) == g
  {}

  /** One fallback, in the right-to-left table and in the table of the reversed needle. */
  lemma FallsOnce(h: string, n: string, table: seq<int>, t: seq<int>, g: nat, q: nat)
    requires q < |h| && g < |n| && IsTable(Reverse(n), t) && Mirrors(|n|, t, table, 0)
    requires |n| - 1 - g < ToInt32(|n|) && n[|n| - 1 - g] != h[|h| - 1 - q]
    ensures |table| == |t| == |n| + 1 && table[|n| - g] == |n| - 1 - t[g]
    ensures -1 <= t[g] < g && StrongAt(Reverse(n), g, t[g])
    ensures FallR(h, n, t, g, q) == FallR(h, n, t, t[g], q)
  {
    assert StrongAt(Reverse(n), g, t[g]);
  }

  /** The inner loop of the right-to-left search, on the left-to-right search of the reversed texts. */
  method SkipR(haystack: string, needle: string, table: array<int>, i0: int, j: int,
               ghost rh: string, ghost rn: string, ghost gi0: int, ghost gj: int, ghost t: seq<int>)
    returns (i: int, ghost gi: int, ghost fallbacks: nat)
    requires 0 <= j < |haystack| && 0 <= i0 < |needle| && table.Length == |needle| + 1
    requires rh == Reverse(haystack) && rn == Reverse(needle) && IsTable(rn, t) && Mirrors(|needle|, t, table[..], 0)
    requires i0 == |needle| - 1 - gi0 && j == |haystack| - 1 - gj
    requires |needle| < TWO31 ==> Matched(rh, rn, gi0, gj) && NoneBefore(rh, rn, gj - gi0)
    ensures -1 <= gi < |rn| && i == |needle| - 1 - gi && fallbacks <= gi0 - gi
    ensures |needle| < TWO31 ==> Matched(rh, rn, gi + 1, gj + 1) && NoneBefore(rh, rn, gj + 1 - (gi + 1))
    ensures gi == FallR(haystack, needle, t, gi0, gj)
  {
    hide *;
    i, gi, fallbacks := i0, gi0, 0;
    Int32AtMost(|needle|);
    while i < ToInt32(|needle|) && needle[i] != haystack[j]
      invariant i == |needle| - 1 - gi && -1 <= gi < |rn|
      invariant |needle| < TWO31 && gi >= 0 ==> Matched(rh, rn, gi, gj)
      invariant |needle| < TWO31 ==> NoneBefore(rh, rn, gj - gi)
      invariant FallR(haystack, needle, t, gi0, gj) == FallR(haystack, needle, t, gi, gj)
      invariant fallbacks <= gi0 - gi
      decreases gi
    {
      FallsOnce(haystack, needle, table[..], t, gi, gj);
      if |needle| < TWO31 { SkipIsSafe(rh, rn, gi, gj, t[gi]); }
      i := table[i + 1];
      gi := t[gi];
      fallbacks := fallbacks + 1;
    }
    FallsNoMore(haystack, needle, t, gi, gj);
    if |needle| < TWO31 {
      Int32Same(|needle|);
      MatchedStep(rh, rn, gi, gj);
    }
  }

  /** What the search knows when it stops: all of the needle matched, or no room for the rest of it. */
  lemma SearchEnds(h: string, n: string, i: int, j: int)
    requires NoneBefore(h, n, j - i) && Matched(h, n, i, j)
    ensures i == |n| ==> IsLeftmost(h, n, 0, |h|, j - i)
    ensures |h| - j + i < |n| ==> IsLeftmost(h, n, 0, |h|, -1)
  {}

  lemma TooLong(h: string, n: string)
    requires |n| > |h|
    ensures IsRightmost(h, n, -1)
  {}

  lemma FindEndsR(h: string, n: string, t: seq<int>, gi: int, gj: int, found: int)
    requires n != "" && IsTable(Reverse(n), t)
    requires |n| < TWO31 ==> NoneBefore(Reverse(h), Reverse(n), gj - gi) && Matched(Reverse(h), Reverse(n), gi, gj)
    requires if found >= 0 then gi == |n| <= gj <= |h| && found == |h| - gj
             else found == -1 && |h| - gj + gi < |n|
    requires found == RunR(h, n, t, 0, 0)
    requires |n| > |h| ==> found == -1
    ensures FoundIsR(h, n, found)
  {
    if |n| < TWO31 {
      SearchEnds(Reverse(h), Reverse(n), gi, gj);
      MirroredSearch(h, n, found);
    } else {
      if |n| > |h| { TooLong(h, n); }
      RunAnswers(h, n, t, found);
    }
  }

  method FindWithTableR(haystack: string, needle: string, table: array<int>, ghost t: seq<int>)
    returns (found: int, ghost fallbacks: nat)
    requires needle != "" && table.Length == |needle| + 1
    requires IsTable(Reverse(needle), t) && Mirrors(|needle|, t, table[..], 0)
    ensures fallbacks <= |haystack|
    ensures FoundIsR(haystack, needle, found)
  {
    hide *;
    found := -1;
    fallbacks := 0;
    // the left-to-right search of the reversed texts that this run mirrors
    ghost var rh, rn, gi, gj := Reverse(haystack), Reverse(needle), 0, 0;
    var j := |haystack| - 1;
    var i := |needle| - 1;
    NothingMatched(rh, rn);
    while j >= 0 && j >= i
      invariant i == |needle| - 1 - gi && j == |haystack| - 1 - gj
      invariant 0 <= gi < |needle| && 0 <= gj
      invariant |needle| < TWO31 ==> Matched(rh, rn, gi, gj) && NoneBefore(rh, rn, gj - gi)
      invariant RunR(haystack, needle, t, gi, gj) == RunR(haystack, needle, t, 0, 0)
      invariant |needle| > |haystack| ==> gi == gj == 0
      invariant fallbacks <= gj - gi <= |haystack|
      decreases j
    {
      ghost var steps;
      RunStep(haystack, needle, t, gi, gj);
      i, gi, steps := SkipR(haystack, needle, table, i, j, rh, rn, gi, gj, t);
      fallbacks := fallbacks + steps;
      i, gi := i - 1, gi + 1;
      j, gj := j - 1, gj + 1;
      if i < 0 {
        found := j + 1;
        break;
      }
    }
    if gi < |needle| { RunStep(haystack, needle, t, gi, gj); }
    FindEndsR(haystack, needle, t, gi, gj, found);
  }

  // ---- one-time searches of a string object ----

  lemma OccursInSuffix(h: string, start: nat, n: string, p: int)
    requires start <= |h| && p >= 0
    ensures OccursAt(h[start..], n, p) <==> OccursAt(h, n, start + p)
  {
    if p + |n| <= |h| - start {
      assert h[start..][p..p + |n|] == h[start + p..start + p + |n|];
    }
  }

  lemma LeftmostInSuffix(h: string, start: nat, n: string, limit: int, r: int)
    requires start <= |h| && IsLeftmost(h[start..], n, 0, limit, r)
    ensures IsLeftmost(h, n, start, start + limit, if r >= 0 then r + start else r)
  {
    if r >= 0 { OccursInSuffix(h, start, n, r); }
    forall q | start <= q && OccursAt(h, n, q) && q + |n| <= start + limit
      ensures r != -1 && r + start <= q
    {
      OccursInSuffix(h, start, n, q - start);
    }
  }

  lemma FoundInSuffix(h: string, start: nat, n: string, r: int)
    requires start <= |h| && n != "" && FoundIs(h[start..], n, r)
    ensures |n| < TWO31 ==>
              IsLeftmost(h, n, start, start + ToInt32(|h| - start), if r >= 0 then r + start else r)
  {
    if |n| < TWO31 {
      FoundShort(h[start..], n, r);
      LeftmostInSuffix(h, start, n, ToInt32(|h| - start), r);
    }
  }

  lemma NoRoom(h: string, n: string, start: nat)
    requires |h| - start < |n|
    ensures var left := |h| - start;
            IsLeftmost(h, n, start, start + if left < 0 then left else ToInt32(left), -1)
  {
    if |h| >= start { Int32AtMost(|h| - start); }
  }

  lemma FoundAtLeast(h: string, n: string, r: int)
    requires n != "" && FoundIs(h, n, r)
    ensures r >= -1
  {}

  lemma FoundNone(h: string, n: string)
    requires |n| > |h|
    ensures FoundIs(h, n, -1)
  {}

  /** `UT_string`: the buffer `d` of capacity `d.Length`, of which the first `i` bytes are in use. */
  class Str {
    var d: array<char>
    var i: nat

    ghost predicate Valid() reads this {
      i <= d.Length
    }

    /** A negative position counts back from the end. */
    method Find(position: int, needle: string) returns (found: int)
      requires Valid() && i + position >= 0
      ensures var start := if position < 0 then i + position else position;
              && (needle == "" || start > i ==> found == -1)
              && (needle != "" && start <= i ==>
                    FoundIs(d[start..i], needle, if found >= 0 then found - start else found))
              && (0 < |needle| < TWO31 ==>
                    var left := i - start;
                    IsLeftmost(d[..i], needle, start, start + if left < 0 then left else ToInt32(left), found))
    {
      hide IsTable, FoundIs, IsLeftmost, ToInt32;
      found := -1;
      var start := if position < 0 then i + position else position;
      var haystackLen := i - start;
      if haystackLen >= |needle| && |needle| > 0 {
        var table := new int[|needle| + 1];
        ghost var steps := BuildTable(needle, table);
        found, steps := FindWithTable(d[start..i], needle, table);
        ghost var inner := found;
        FoundAtLeast(d[start..i], needle, inner);
        if found >= 0 {
          found := found + start;
        }
        FoundInSuffix(d[..i], start, needle, inner);
        assert d[..i][start..] == d[start..i];
      } else if needle != "" {
        NoRoom(d[..i], needle, start);
        if haystackLen >= 0 { FoundNone(d[start..i], needle); }
      }
    }

    /** The haystack is everything up to and including the start position, which the caller keeps
        inside the buffer. */
    method FindR(position: int, needle: string) returns (found: int)
      requires Valid() && (position < 0 || position < d.Length)
      ensures needle == "" ==> found == -1
      ensures needle != "" ==>
                var start := if position < 0 then i + position else position;
                FoundIsR(if start < 0 then [] else d[..start + 1], needle, found)
    {
      found := -1;
      var start := if position < 0 then i + position else position;
      var haystackLen := start + 1;
      if haystackLen >= |needle| && |needle| > 0 {
        var table := new int[|needle| + 1];
        ghost var steps := BuildTableR(needle, table);
        ghost var t :| IsTable(Reverse(needle), t) && Mirrors(|needle|, t, table[..], 0);
        found, steps := FindWithTableR(d[..haystackLen], needle, table, t);
      }
    }
  }

  // ---- what the casts cost ----

  /** Every search for a needle of length `nl` in a haystack of length `hl` is answered right. */
  ghost predicate SearchesRight(hl: nat, nl: nat) {
    forall h: string, n: string, r: int {:trigger FoundIs(h, n, r)} ::
      |h| == hl && |n| == nl > 0 && FoundIs(h, n, r) ==> IsLeftmost(h, n, 0, hl, r)
  }

  ghost predicate SearchesRightR(hl: nat, nl: nat) {
    forall h: string, n: string, r: int {:trigger FoundIsR(h, n, r)} ::
      |h| == hl && |n| == nl > 0 && FoundIsR(h, n, r) ==> IsRightmost(h, n, r)
  }

  function Fill(c: char, k: nat): (s: string)
    ensures |s| == k && forall i :: 0 <= i < k ==> s[i] == c
  {
    seq(k, _ => c)
  }

  /** A needle the search should find at 0 and does not. */
  lemma Unseen(hl: nat, nl: nat)
    requires 0 < nl <= hl && FoundIs(Fill('a', hl), Fill('a', nl), -1)
    ensures !SearchesRight(hl, nl)
  {
    var h, n := Fill('a', hl), Fill('a', nl);
    assert h[0..nl] == n;
    assert OccursAt(h, n, 0);
    assert !IsLeftmost(h, n, 0, hl, -1);
  }

  lemma LastChar(h: string, n: string, p: int)
    requires OccursAt(h, n, p) && n != ""
    ensures h[p + |n| - 1] == n[|n| - 1]
  {
    assert h[p..p + |n|][|n| - 1] == n[|n| - 1];
  }

  /** A needle that occurs nowhere, reported found. */
  lemma Invented(hl: nat, nl: nat, c: char, r: int)
    requires 0 < nl <= hl && r >= 0 && FoundIs(Fill('a', hl), Fill(c, nl - 1) + "b", r)
    ensures !SearchesRight(hl, nl)
  {
    var h, n := Fill('a', hl), Fill(c, nl - 1) + "b";
    assert !OccursAt(h, n, r) by {
      if OccursAt(h, n, r) { LastChar(h, n, r); }
    }
    assert !IsLeftmost(h, n, 0, hl, r);
  }

  /** A needle of the cast's range at the very end, where the search does not get to. */
  lemma UnseenAtEnd(hl: nat, nl: nat)
    requires 0 < nl <= hl && nl < TWO31 <= hl
    ensures !SearchesRight(hl, nl)
  {
    var n := Fill('b', nl);
    var h := Fill('a', hl - nl) + n;
    assert h[hl - nl..hl] == n;
    forall q | 0 <= q ensures OccursAt(h, n, q) ==> q == hl - nl {
      if OccursAt(h, n, q) { assert h[q..q + nl][0] == n[0]; }
    }
    assert OccursAt(h, n, hl - nl);
    assert IsLeftmost(h, n, 0, ToInt32(hl), -1);
    FoundShort(h, n, -1);
    assert !IsLeftmost(h, n, 0, hl, -1);
  }

  lemma LongNeedle(hl: nat, nl: nat)
    requires TWO31 <= nl <= hl
    ensures !SearchesRight(hl, nl)
  {
    var m, limit := ToInt32(nl), ToInt32(hl);
    var h := Fill('a', hl);
    if m <= 0 {
      if limit > 0 {
        Invented(hl, nl, 'b', 1);
      } else {
        Unseen(hl, nl);
      }
    } else if m <= limit {
      var n := Fill('a', nl - 1) + "b";
      assert h[0..m] == n[..m];
      assert OccursAt(h, n[..m], 0);
      assert IsLeftmost(h, n[..m], 0, Min(limit, hl - nl + m), 0);
      Invented(hl, nl, 'a', 0);
    } else {
      assert IsLeftmost(h, Fill('a', nl)[..m], 0, Min(limit, hl - nl + m), -1);
      Unseen(hl, nl);
    }
  }

  /** The casts to `int` are harmless for all texts of these lengths exactly when the haystack is shorter
      than 2^31 bytes, or too short for the needle anyway. */
  lemma SearchRightIffBelow2G(hl: nat, nl: nat)
    requires nl > 0
    ensures SearchesRight(hl, nl) <==> hl < TWO31 || nl > hl
  {
    if hl >= TWO31 && nl <= hl {
      if nl < TWO31 { UnseenAtEnd(hl, nl); } else { LongNeedle(hl, nl); }
    } else {
      forall h: string, n: string, r: int {:trigger FoundIs(h, n, r)}
        | |h| == hl && |n| == nl > 0 && FoundIs(h, n, r) ensures IsLeftmost(h, n, 0, hl, r) {
        if nl < TWO31 { FoundShort(h, n, r); }
      }
    }
  }

  /** From right to left it is the needle's length that must stay below 2^31. */
  lemma SearchRightIffBelow2GR(hl: nat, nl: nat)
    requires nl > 0
    ensures SearchesRightR(hl, nl) <==> nl < TWO31 || nl > hl
  {
    if TWO31 <= nl <= hl {
      // the last character is not compared
      var h, n := Fill('a', hl - 1) + "b", Fill('a', nl);
      var r := hl - nl;
      assert !OccursAt(h, n, r) by {
        if OccursAt(h, n, r) { LastChar(h, n, r); }
      }
      forall t {:trigger IsTable(Reverse(n), t)} | IsTable(Reverse(n), t) ensures r == RunR(h, n, t, 0, 0) {
        RunBlind(h, n, t, 0);
      }
      assert FoundIsR(h, n, r) && !IsRightmost(h, n, r);
    }
  }
}
