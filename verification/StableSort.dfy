/** Bottom-up merge sort on sequences: what the list sorts compute, and why it is a stable sort.
    Elements of type `E` are compared by a key of type `K`. */
module StableSort {
  import opened Sequences

  /** What a comparison function has to satisfy: the sign of `cmp` describes a total preorder. */
  ghost predicate Preorder<K(!new)>(cmp: (K, K) -> int) {
    && (forall a, b :: cmp(a, b) <= 0 <==> cmp(b, a) >= 0)
    && (forall a, b, c :: cmp(a, b) <= 0 && cmp(b, c) <= 0 ==> cmp(a, c) <= 0)
  }

  ghost predicate Sorted<E, K>(key: E -> K, cmp: (K, K) -> int, s: seq<E>) {
    forall i, j :: 0 <= i < j < |s| ==> cmp(key(s[i]), key(s[j])) <= 0
  }

  predicate Equivalent<K>(cmp: (K, K) -> int, a: K, b: K) {
    cmp(a, b) <= 0 && cmp(b, a) <= 0
  }

  /** The elements whose key is equivalent to `k`, in order. */
  function Class<E, K>(key: E -> K, cmp: (K, K) -> int, k: K, s: seq<E>): seq<E> {
    if s == [] then []
    else (if Equivalent(cmp, key(s[0]), k) then [s[0]] else []) + Class(key, cmp, k, s[1..])
  }

  /** `t` rearranges `s` without changing the order of elements with equivalent keys. */
  ghost predicate Stable<E, K(!new)>(key: E -> K, cmp: (K, K) -> int, s: seq<E>, t: seq<E>) {
    && multiset(s) == multiset(t)
    && forall k :: Class(key, cmp, k, t) == Class(key, cmp, k, s)
  }

  ghost predicate StableSortOf<E, K(!new)>(key: E -> K, cmp: (K, K) -> int, s: seq<E>, t: seq<E>) {
    Sorted(key, cmp, t) && Stable(key, cmp, s, t)
  }

  // ---- merging ----

  function Merge<E, K>(key: E -> K, cmp: (K, K) -> int, p: seq<E>, q: seq<E>): seq<E> {
    if p == [] then q
    else if q == [] then p
    else if cmp(key(p[0]), key(q[0])) <= 0 then [p[0]] + Merge(key, cmp, p[1..], q)
    else [q[0]] + Merge(key, cmp, p, q[1..])
  }

  lemma {:induction false} ClassConcat<E, K>(key: E -> K, cmp: (K, K) -> int, k: K, a: seq<E>, b: seq<E>)
    ensures Class(key, cmp, k, a + b) == Class(key, cmp, k, a) + Class(key, cmp, k, b)
  {
    if a == [] {
      assert a + b == b;
    } else {
      var h := if Equivalent(cmp, key(a[0]), k) then [a[0]] else [];
      calc {
        Class(key, cmp, k, a + b);
        { assert (a + b)[0] == a[0] && (a + b)[1..] == a[1..] + b; }
        h + Class(key, cmp, k, a[1..] + b);
        { ClassConcat(key, cmp, k, a[1..], b); }
        h + (Class(key, cmp, k, a[1..]) + Class(key, cmp, k, b));
        Class(key, cmp, k, a) + Class(key, cmp, k, b);
      }
    }
  }

  lemma {:induction false} ClassEmpty<E, K>(key: E -> K, cmp: (K, K) -> int, k: K, s: seq<E>)
    requires forall i :: 0 <= i < |s| ==> !Equivalent(cmp, key(s[i]), k)
    ensures Class(key, cmp, k, s) == []
  {
    if s == [] {
    } else {
      ClassEmpty(key, cmp, k, s[1..]);
    }
  }

  lemma {:induction false} MergeMultiset<E, K>(key: E -> K, cmp: (K, K) -> int, p: seq<E>, q: seq<E>)
    ensures multiset(Merge(key, cmp, p, q)) == multiset(p) + multiset(q)
  {
    if p != [] && q != [] {
      assert p == [p[0]] + p[1..] && q == [q[0]] + q[1..];
      if cmp(key(p[0]), key(q[0])) <= 0 {
        MergeMultiset(key, cmp, p[1..], q);
      } else {
        MergeMultiset(key, cmp, p, q[1..]);
      }
    }
  }

  lemma {:induction false} MergeStable<E, K(!new)>(key: E -> K, cmp: (K, K) -> int, k: K, p: seq<E>, q: seq<E>)
    requires Preorder(cmp) && Sorted(key, cmp, p)
    ensures Class(key, cmp, k, Merge(key, cmp, p, q)) == Class(key, cmp, k, p) + Class(key, cmp, k, q)
  {
    if p != [] && q != [] {
      if cmp(key(p[0]), key(q[0])) <= 0 {
        MergeStable(key, cmp, k, p[1..], q);
      } else {
        MergeStable(key, cmp, k, p, q[1..]);
        if Equivalent(cmp, key(q[0]), k) {
          ClassEmpty(key, cmp, k, p);
        }
      }
    }
  }

  /** Something below every element of both runs is below every element of the merge. */
  lemma HeadBelow<E, K(!new)>(key: E -> K, cmp: (K, K) -> int, e: E, p: seq<E>, q: seq<E>)
    requires forall i :: 0 <= i < |p| ==> cmp(key(e), key(p[i])) <= 0
    requires forall i :: 0 <= i < |q| ==> cmp(key(e), key(q[i])) <= 0
    ensures forall i :: 0 <= i < |Merge(key, cmp, p, q)| ==> cmp(key(e), key(Merge(key, cmp, p, q)[i])) <= 0
  {
    var m := Merge(key, cmp, p, q);
    forall i | 0 <= i < |m| ensures cmp(key(e), key(m[i])) <= 0 {
      assert m[i] in multiset(m);
      MergeMultiset(key, cmp, p, q);
      assert m[i] in p || m[i] in q;
    }
  }

  lemma {:induction false} MergeSorted<E, K(!new)>(key: E -> K, cmp: (K, K) -> int, p: seq<E>, q: seq<E>)
    requires Preorder(cmp) && Sorted(key, cmp, p) && Sorted(key, cmp, q)
    ensures Sorted(key, cmp, Merge(key, cmp, p, q))
  {
    if p != [] && q != [] {
      if cmp(key(p[0]), key(q[0])) <= 0 {
        MergeSorted(key, cmp, p[1..], q);
        HeadBelow(key, cmp, p[0], p[1..], q);
      } else {
        MergeSorted(key, cmp, p, q[1..]);
        HeadBelow(key, cmp, q[0], p, q[1..]);
      }
    }
  }

  // ---- passes ----

  /** At most `k` elements from the front, and what is left. */
  function Take<E>(s: seq<E>, k: nat): seq<E> { if |s| <= k then s else s[..k] }

  function Drop<E>(s: seq<E>, k: nat): seq<E> { if |s| <= k then [] else s[k..] }

  /** One pass: neighbouring runs of length `k` are merged two by two. */
  function Pass<E, K>(key: E -> K, cmp: (K, K) -> int, k: nat, s: seq<E>): seq<E>
    requires k > 0
    decreases |s|
  {
    if s == [] then []
    else
      Merge(key, cmp, Take(s, k), Take(Drop(s, k), k)) + Pass(key, cmp, k, Drop(Drop(s, k), k))
  }

  /** How many merges a pass makes. */
  function Merges(k: nat, n: nat): (m: nat)
    requires k > 0
    ensures m <= 1 <==> n <= 2 * k
    decreases n
  {
    if n == 0 then 0 else 1 + Merges(k, if n <= 2 * k then 0 else n - 2 * k)
  }

  /** `s` is made of sorted runs of length `k`, the last one perhaps shorter. */
  ghost predicate SortedRuns<E, K>(key: E -> K, cmp: (K, K) -> int, k: nat, s: seq<E>)
    requires k > 0
    decreases |s|
  {
    s == [] || (Sorted(key, cmp, Take(s, k)) && SortedRuns(key, cmp, k, Drop(s, k)))
  }

  lemma {:induction false} SingletonRuns<E, K(!new)>(key: E -> K, cmp: (K, K) -> int, s: seq<E>)
    ensures SortedRuns(key, cmp, 1, s)
    decreases |s|
  {
    if s == [] {
    } else {
      SingletonRuns(key, cmp, Drop(s, 1));
    }
  }

  lemma TakeDrop<E>(s: seq<E>, k: nat)
    ensures s == Take(s, k) + Drop(s, k)
    ensures Drop(Drop(s, k), k) == Drop(s, 2 * k)
  {}

  lemma {:induction false} PassMultiset<E, K>(key: E -> K, cmp: (K, K) -> int, k: nat, s: seq<E>)
    requires k > 0
    ensures multiset(Pass(key, cmp, k, s)) == multiset(s)
    decreases |s|
  {
    if s == [] {
    } else {
      var p, q, r := Take(s, k), Take(Drop(s, k), k), Drop(Drop(s, k), k);
      TakeDrop(s, k);
      TakeDrop(Drop(s, k), k);
      assert multiset(s) == multiset(p) + (multiset(q) + multiset(r));
      MergeMultiset(key, cmp, p, q);
      PassMultiset(key, cmp, k, r);
    }
  }

  lemma ConcatAssociative<E>(a: seq<E>, b: seq<E>, c: seq<E>)
    ensures (a + b) + c == a + (b + c)
  {}

  lemma {:induction false} PassStable<E, K(!new)>(key: E -> K, cmp: (K, K) -> int, k: nat, s: seq<E>, c: K)
    requires k > 0 && Preorder(cmp) && SortedRuns(key, cmp, k, s)
    ensures Class(key, cmp, c, Pass(key, cmp, k, s)) == Class(key, cmp, c, s)
    decreases |s|
  {
    hide Class, Merge, Preorder, Sorted;
    if s == [] {
    } else {
      var p, q, r := Take(s, k), Take(Drop(s, k), k), Drop(Drop(s, k), k);
      TakeDrop(s, k);
      TakeDrop(Drop(s, k), k);
      PassStable(key, cmp, k, r, c);
      MergeStable(key, cmp, c, p, q);
      ClassConcat(key, cmp, c, Merge(key, cmp, p, q), Pass(key, cmp, k, r));
      ClassConcat(key, cmp, c, q, r);
      ClassConcat(key, cmp, c, p, q + r);
      ConcatAssociative(Class(key, cmp, c, p), Class(key, cmp, c, q), Class(key, cmp, c, r));
    }
  }

  lemma {:induction false} PassDoublesRuns<E, K(!new)>(key: E -> K, cmp: (K, K) -> int, k: nat, s: seq<E>)
    requires k > 0 && Preorder(cmp) && SortedRuns(key, cmp, k, s)
    ensures SortedRuns(key, cmp, 2 * k, Pass(key, cmp, k, s))
    decreases |s|
  {
    if s == [] {
    } else {
      var p, q, r := Take(s, k), Take(Drop(s, k), k), Drop(Drop(s, k), k);
      var m, t := Merge(key, cmp, p, q), Pass(key, cmp, k, r);
      MergeSorted(key, cmp, p, q);
      MergeMultiset(key, cmp, p, q);
      assert |m| == |multiset(m)| == |p| + |q|;
      PassDoublesRuns(key, cmp, k, r);
      if r == [] {
        assert m + t == m;
        assert Take(m, 2 * k) == m && Drop(m, 2 * k) == [];
      } else {
        assert |m| == 2 * k;
        PassMultiset(key, cmp, k, r);
        assert |t| == |multiset(t)| == |r|;
        assert Take(m + t, 2 * k) == m && Drop(m + t, 2 * k) == t;
      }
    }
  }

  /** A pass over runs of length `k` keeps a rearrangement of `s0` stable and doubles the runs; when
      it made at most one merge the result is sorted. */
  lemma PassAdvances<E, K(!new)>(key: E -> K, cmp: (K, K) -> int, k: nat, s0: seq<E>, s: seq<E>)
    requires k > 0 && Preorder(cmp) && SortedRuns(key, cmp, k, s) && Stable(key, cmp, s0, s)
    ensures SortedRuns(key, cmp, 2 * k, Pass(key, cmp, k, s))
    ensures Stable(key, cmp, s0, Pass(key, cmp, k, s))
    ensures Merges(k, |s|) <= 1 ==> StableSortOf(key, cmp, s0, Pass(key, cmp, k, s))
  {
    PassDoublesRuns(key, cmp, k, s);
    PassMultiset(key, cmp, k, s);
    assert |Pass(key, cmp, k, s)| == |multiset(Pass(key, cmp, k, s))| == |s|;
    forall c ensures Class(key, cmp, c, Pass(key, cmp, k, s)) == Class(key, cmp, c, s) {
      PassStable(key, cmp, k, s, c);
    }
  }

  // ---- there is only one stable sort ----

  lemma {:induction false} ClassHead<E, K(!new)>(key: E -> K, cmp: (K, K) -> int, k: K, s: seq<E>, i: nat)
    requires i < |s| && Equivalent(cmp, key(s[i]), k)
    requires forall j :: 0 <= j < i ==> !Equivalent(cmp, key(s[j]), k)
    ensures Class(key, cmp, k, s) != [] && Class(key, cmp, k, s)[0] == s[i]
  {
    if i == 0 {
    } else {
      ClassHead(key, cmp, k, s[1..], i - 1);
    }
  }

  lemma {:induction false} ClassMember<E, K(!new)>(key: E -> K, cmp: (K, K) -> int, k: K, s: seq<E>) returns (i: nat)
    requires Class(key, cmp, k, s) != []
    ensures i < |s| && Class(key, cmp, k, s)[0] == s[i] && Equivalent(cmp, key(s[i]), k)
  {
    if Equivalent(cmp, key(s[0]), k) {
      i := 0;
    } else {
      i := ClassMember(key, cmp, k, s[1..]);
      i := i + 1;
    }
  }

  /** The first elements of two stable sorts of the same sequence are the same element. */
  lemma SameHead<E, K(!new)>(key: E -> K, cmp: (K, K) -> int, a: seq<E>, b: seq<E>)
    requires Preorder(cmp) && Sorted(key, cmp, a) && Sorted(key, cmp, b) && a != [] && b != []
    requires forall k :: Class(key, cmp, k, a) == Class(key, cmp, k, b)
    ensures a[0] == b[0]
  {
    var ka, kb := key(a[0]), key(b[0]);
    ClassHead(key, cmp, ka, a, 0);
    ClassHead(key, cmp, kb, b, 0);
    assert Class(key, cmp, ka, b) != [] && Class(key, cmp, kb, a) != [];
    var i := ClassMember(key, cmp, ka, b);
    var j := ClassMember(key, cmp, kb, a);
    assert cmp(kb, key(b[i])) <= 0 && cmp(ka, key(a[j])) <= 0;
    assert Equivalent(cmp, ka, kb);
    ClassHead(key, cmp, ka, b, 0);
  }

  lemma {:induction false} StableSortUnique<E, K(!new)>(key: E -> K, cmp: (K, K) -> int, a: seq<E>, b: seq<E>)
    requires Preorder(cmp) && Sorted(key, cmp, a) && Sorted(key, cmp, b) && |a| == |b|
    requires forall k :: Class(key, cmp, k, a) == Class(key, cmp, k, b)
    ensures a == b
    decreases |a|
  {
    if a == [] {
    } else {
      SameHead(key, cmp, a, b);
      forall k ensures Class(key, cmp, k, a[1..]) == Class(key, cmp, k, b[1..]) {
        var h := if Equivalent(cmp, key(a[0]), k) then [a[0]] else [];
        assert Class(key, cmp, k, a) == h + Class(key, cmp, k, a[1..]);
        assert Class(key, cmp, k, b) == h + Class(key, cmp, k, b[1..]);
        assert Class(key, cmp, k, a[1..]) == (h + Class(key, cmp, k, a[1..]))[|h|..];
        assert Class(key, cmp, k, b[1..]) == (h + Class(key, cmp, k, b[1..]))[|h|..];
      }
      StableSortUnique(key, cmp, a[1..], b[1..]);
    }
  }

  /** Inserting an element between those not above it and those not below it. */
  lemma SortedInsert<E, K(!new)>(key: E -> K, cmp: (K, K) -> int, s: seq<E>, k: nat, x: E)
    requires k <= |s| && Sorted(key, cmp, s)
    requires forall i :: 0 <= i < k ==> cmp(key(s[i]), key(x)) <= 0
    requires forall i :: k <= i < |s| ==> cmp(key(x), key(s[i])) <= 0
    ensures Sorted(key, cmp, InsertAt(s, k, x))
  {
    var t := InsertAt(s, k, x);
    forall i, j | 0 <= i < j < |t| ensures cmp(key(t[i]), key(t[j])) <= 0 {
      if j < k {
        assert t[i] == s[i] && t[j] == s[j];
      } else if j == k {
        assert t[i] == s[i] && t[j] == x;
      } else if i < k {
        assert t[i] == s[i] && t[j] == s[j - 1];
      } else if i == k {
        assert t[i] == x && t[j] == s[j - 1];
      } else {
        assert t[i] == s[i - 1] && t[j] == s[j - 1];
      }
    }
  }
}
