/** Shifts and masks of unsigned numbers, as src/external/uthash.h uses them. */
module Masks {
  function Pow2(k: nat): (p: nat)
    ensures p > 0
  {
    if k == 0 then 1 else 2 * Pow2(k - 1)
  }

  /** `a & b`. */
  function And(a: nat, b: nat): nat
    decreases a
  {
    if a == 0 || b == 0 then 0 else 2 * And(a / 2, b / 2) + (if a % 2 == 1 && b % 2 == 1 then 1 else 0)
  }

  /** `a >> k`. */
  function Shr(a: nat, k: nat): nat {
    if k == 0 then a else Shr(a / 2, k - 1)
  }

  lemma MulAtLeast(m: nat, t: nat)
    requires t > 0
    ensures m * t >= m
  {}

  lemma MulSplit(m: int, q: int, t: int)
    ensures m * (q + t) == m * q + m * t
  {}

  /** Quotient and remainder are determined by the equation they satisfy. */
  lemma SameQuotient(m: nat, q: nat, r: nat, d: nat, e: nat)
    requires r < m && e < m && m * q + r == m * d + e
    ensures q == d && r == e
  {
    if d < q {
      MulSplit(m, d, q - d);
      MulAtLeast(m, q - d);
    } else if q < d {
      MulSplit(m, q, d - q);
      MulAtLeast(m, d - q);
    }
  }

  lemma DivModUnique(x: nat, m: nat, q: nat, r: nat)
    requires m > 0 && x == m * q + r && r < m
    ensures x / m == q && x % m == r
  {
    SameQuotient(m, q, r, x / m, x % m);
  }

  lemma DoubleDivMod(h: nat, m: nat)
    requires m > 0
    ensures h / (2 * m) == h / 2 / m
    ensures h % (2 * m) == 2 * (h / 2 % m) + h % 2
  {
    var q, r := h / 2 / m, h / 2 % m;
    assert h / 2 == m * q + r;
    assert h == 2 * (m * q + r) + h % 2 == 2 * m * q + (2 * r + h % 2);
    DivModUnique(h, 2 * m, q, 2 * r + h % 2);
  }

  lemma {:induction false} AndBound(a: nat, b: nat)
    ensures And(a, b) <= b
    decreases a
  {
    if a == 0 || b == 0 {
    } else {
      AndBound(a / 2, b / 2);
    }
  }

  /** Masking with a power of two less one is the remainder. */
  lemma {:induction false} AndMask(h: nat, k: nat)
    ensures And(h, Pow2(k) - 1) == h % Pow2(k)
    decreases k
  {
    if k == 0 {
    } else {
      AndMask(h / 2, k - 1);
      DoubleDivMod(h, Pow2(k - 1));
    }
  }

  lemma {:induction false} ShrDivides(h: nat, k: nat)
    ensures Shr(h, k) == h / Pow2(k)
    decreases k
  {
    if k == 0 {
    } else {
      ShrDivides(h / 2, k - 1);
      DoubleDivMod(h, Pow2(k - 1));
    }
  }

  /** Doubling the modulus leaves a remainder alone or moves it up by the old modulus. */
  lemma RemainderSplits(h: nat, m: nat)
    requires m > 0
    ensures h % (2 * m) == h % m || h % (2 * m) == h % m + m
  {
    var q, r := h / m, h % m;
    var half, odd := q / 2, q % 2;
    MulSplit(m, 2 * half, odd);
    assert m * (2 * half) == 2 * m * half;
    DivModUnique(h, 2 * m, half, r + m * odd);
  }
}

/** Bucket chains seen as sequences. */
module Chains {
  import opened Masks

  function Flat<E>(chains: seq<seq<E>>): seq<E> {
    if chains == [] then [] else chains[0] + Flat(chains[1..])
  }

  lemma {:induction false} FlatAppend<E>(a: seq<seq<E>>, x: seq<E>)
    ensures Flat(a + [x]) == Flat(a) + x
  {
    if a == [] {
      assert a + [x] == [x] && [x][1..] == [];
    } else {
      assert (a + [x])[1..] == a[1..] + [x];
      FlatAppend(a[1..], x);
    }
  }

  lemma {:induction false} FlatUpdate<E>(chains: seq<seq<E>>, b: nat, c: seq<E>)
    requires b < |chains|
    ensures multiset(Flat(chains[b := c])) + multiset(chains[b]) == multiset(Flat(chains)) + multiset(c)
  {
    if b == 0 {
      assert chains[0 := c][1..] == chains[1..];
    } else {
      assert chains[b := c][1..] == chains[1..][b - 1 := c];
      assert chains[b := c][0] == chains[0] && chains[1..][b - 1] == chains[b];
      FlatUpdate(chains[1..], b - 1, c);
      var first, rest, rest' := chains[0], Flat(chains[1..]), Flat(chains[1..][b - 1 := c]);
      assert Flat(chains[b := c]) == first + rest' && Flat(chains) == first + rest;
      hide Flat;
      assert multiset(first) + multiset(rest') + multiset(chains[b])
          == multiset(first) + (multiset(rest') + multiset(chains[b]));
    }
  }

  lemma {:induction false} FlatMember<E>(chains: seq<seq<E>>, b: nat, i: nat)
    requires b < |chains| && i < |chains[b]|
    ensures chains[b][i] in Flat(chains)
  {
    if b == 0 {
    } else {
      FlatMember(chains[1..], b - 1, i);
    }
  }

  lemma {:induction false} FlatOrigin<E>(chains: seq<seq<E>>, x: E) returns (b: nat, i: nat)
    requires x in Flat(chains)
    ensures b < |chains| && i < |chains[b]| && chains[b][i] == x
  {
    if x in chains[0] {
      b, i :| b == 0 && 0 <= i < |chains[0]| && chains[0][i] == x;
    } else {
      b, i := FlatOrigin(chains[1..], x);
      b := b + 1;
    }
  }

  lemma {:induction false} FlatEmpty<E>(chains: seq<seq<E>>)
    requires forall b :: 0 <= b < |chains| ==> chains[b] == []
    ensures Flat(chains) == []
  {
    if chains == [] {
    } else {
      FlatEmpty(chains[1..]);
    }
  }

  /** The elements that satisfy `p`, last one first: what pushing them one by one leaves on a chain. */
  function RevFilter<E>(p: E -> bool, s: seq<E>): seq<E> {
    if s == [] then []
    else
      var r := RevFilter(p, s[..|s| - 1]);
      if p(s[|s| - 1]) then [s[|s| - 1]] + r else r
  }

  lemma {:induction false} RevFilterMembers<E>(p: E -> bool, s: seq<E>)
    ensures forall i :: 0 <= i < |RevFilter(p, s)| ==> RevFilter(p, s)[i] in s && p(RevFilter(p, s)[i])
  {
    if s == [] {
    } else {
      RevFilterMembers(p, s[..|s| - 1]);
    }
  }

  lemma {:induction false} RevFilterPartition<E>(p: E -> bool, q: E -> bool, s: seq<E>)
    requires forall i :: 0 <= i < |s| ==> p(s[i]) != q(s[i])
    ensures multiset(RevFilter(p, s)) + multiset(RevFilter(q, s)) == multiset(s)
  {
    if s == [] {
    } else {
      assert s == s[..|s| - 1] + [s[|s| - 1]];
      RevFilterPartition(p, q, s[..|s| - 1]);
    }
  }

  lemma {:induction false} FlatConcat<E>(a: seq<seq<E>>, b: seq<seq<E>>)
    ensures Flat(a + b) == Flat(a) + Flat(b)
  {
    if a == [] {
      assert a + b == b;
    } else {
      assert (a + b)[1..] == a[1..] + b;
      FlatConcat(a[1..], b);
    }
  }

  lemma {:induction false} FlatPairs<E>(chains: seq<seq<E>>, low: seq<seq<E>>, high: seq<seq<E>>)
    requires |low| == |chains| == |high|
    requires forall b :: 0 <= b < |chains| ==> multiset(low[b]) + multiset(high[b]) == multiset(chains[b])
    ensures multiset(Flat(low)) + multiset(Flat(high)) == multiset(Flat(chains))
  {
    if chains == [] {
    } else {
      FlatPairs(chains[1..], low[1..], high[1..]);
    }
  }

  /** Splitting every chain in two keeps the elements. */
  lemma {:induction false} SplitKeepsElements<E>(chains: seq<seq<E>>, low: seq<seq<E>>, high: seq<seq<E>>)
    requires |low| == |chains| == |high|
    requires forall b :: 0 <= b < |chains| ==> multiset(low[b]) + multiset(high[b]) == multiset(chains[b])
    ensures multiset(Flat(low + high)) == multiset(Flat(chains))
  {
    FlatConcat(low, high);
    FlatPairs(chains, low, high);
  }

  // ---- how far chains exceed the ideal length ----

  /** `expand_mult` of a chain of `count`: counted up while the chain grows beyond the ideal length and that
      multiple of it. */
  function Multiple(count: nat, ideal: nat): nat {
    if count == 0 then 0
    else
      var m := Multiple(count - 1, ideal);
      if count > ideal && count > m * ideal then m + 1 else m
  }

  /** `c` is `a / n` rounded up. */
  ghost predicate IsCeiling(c: nat, a: nat, n: nat) {
    n * c >= a && n * c < a + n
  }

  lemma CeilingNext(a: nat, n: nat, c: nat)
    requires n > 0 && IsCeiling(c, a + 1, n)
    ensures c > 0 && (IsCeiling(c, a, n) || IsCeiling(c - 1, a, n))
    ensures IsCeiling(c - 1, a, n) ==> a == n * (c - 1)
  {
    MulSplit(n, c - 1, 1);
  }

  lemma CeilingIs(a: nat, n: nat, c: nat, m: nat)
    requires n > 0 && IsCeiling(c, a, n)
    ensures a > n * m <==> m < c
    ensures a <= n ==> c <= 1
  {
    if m < c {
      MulSplit(n, m, c - m);
      MulAtLeast(n, c - m);
    } else {
      MulSplit(n, c, m - c);
    }
    if c > 1 { MulSplit(n, 1, c - 1); MulAtLeast(n, c - 1); }
  }

  /** So it is the length in ideal lengths, rounded up, but at most the number of elements beyond the ideal length. */
  lemma {:induction false} MultipleIs(count: nat, ideal: nat, c: nat)
    requires ideal > 0 && IsCeiling(c, count, ideal)
    ensures Multiple(count, ideal) == if count <= ideal then 0 else if c < count - ideal then c else count - ideal
  {
    if count == 0 {
    } else {
      CeilingNext(count - 1, ideal, c);
      if IsCeiling(c, count - 1, ideal) {
        MultipleIs(count - 1, ideal, c);
      } else {
        MultipleIs(count - 1, ideal, c - 1);
      }
      var m := Multiple(count - 1, ideal);
      CeilingIs(count, ideal, c, m);
      hide IsCeiling;
    }
  }

  function Excess(count: nat, ideal: nat): nat {
    if count > ideal then count - ideal else 0
  }

  /** The number of elements beyond position `ideal` of their chain. */
  function NonIdeal<E>(chains: seq<seq<E>>, ideal: nat): nat {
    if chains == [] then 0 else Excess(|chains[0]|, ideal) + NonIdeal(chains[1..], ideal)
  }

  lemma {:induction false} NonIdealUpdate<E>(chains: seq<seq<E>>, b: nat, c: seq<E>, ideal: nat)
    requires b < |chains|
    ensures NonIdeal(chains[b := c], ideal) + Excess(|chains[b]|, ideal) == NonIdeal(chains, ideal) + Excess(|c|, ideal)
  {
    if b == 0 {
      assert chains[0 := c][1..] == chains[1..];
    } else {
      assert chains[b := c][1..] == chains[1..][b - 1 := c];
      NonIdealUpdate(chains[1..], b - 1, c, ideal);
    }
  }
}
