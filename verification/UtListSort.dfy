/** The nodes and list shapes of src/external/utlist.h. */
module ListNodes {
  class Node<T> {
    const elt: T
    var prev: Node?<T>
    var next: Node?<T>

    constructor (elt: T)
      ensures this.elt == elt
    {
      this.elt := elt;
      prev := null;
      next := null;
    }
  }

  function Elt<T>(n: Node<T>): T { n.elt }

  ghost predicate NoDup<T>(s: seq<Node<T>>) {
    forall i, j :: 0 <= i < j < |s| ==> s[i] != s[j]
  }

  ghost function Nodes<T>(s: seq<Node<T>>): set<Node<T>> {
    set n | n in s
  }

  ghost function Bag<T>(s: seq<Node<T>>): multiset<Node<T>> {
    multiset(s)
  }

  function First<T>(s: seq<Node<T>>): Node?<T> {
    if s == [] then null else s[0]
  }

  function Last<T>(s: seq<Node<T>>): Node?<T> {
    if s == [] then null else s[|s| - 1]
  }

  /** Each node's `next` is the following one; the last node's is not constrained. */
  ghost predicate Linked<T>(s: seq<Node<T>>) reads s {
    forall i :: 0 <= i < |s| - 1 ==> s[i].next == s[i + 1]
  }

  ghost predicate BackLinked<T>(s: seq<Node<T>>) reads s {
    forall i :: 1 <= i < |s| ==> s[i].prev == s[i - 1]
  }

  /** `s` is linked up to its last node, whose `next` is `end`. */
  ghost predicate Chain<T>(s: seq<Node<T>>, end: Node?<T>) reads s {
    Linked(s) && (s != [] ==> s[|s| - 1].next == end)
  }

  /** The singly linked list at `head`. */
  ghost predicate LL<T>(head: Node?<T>, s: seq<Node<T>>) reads s {
    NoDup(s) && head == First(s) && Chain(s, null)
  }

  /** The doubly linked list at `head`: the head's `prev` is the tail. */
  ghost predicate DL<T>(head: Node?<T>, s: seq<Node<T>>) reads s {
    LL(head, s) && BackLinked(s) && (s != [] ==> s[0].prev == s[|s| - 1])
  }

  /** The circular doubly linked list at `head`. */
  ghost predicate CDL<T>(head: Node?<T>, s: seq<Node<T>>) reads s {
    NoDup(s) && head == First(s) && Chain(s, head) && BackLinked(s) && (s != [] ==> s[0].prev == s[|s| - 1])
  }
}

/** `LL_SORT2`, `DL_SORT2` and `CDL_SORT2`. The three macros are one text up to two choices, which are
    parameters here: the pointer that marks the end of the list (null, or the old head of a circular
    list) and whether `prev` is written too. */
module ListSort {
  import opened ListNodes
  import opened StableSort

  /** The output list built so far: its first and last node and its links. */
  ghost predicate Output<T>(out: seq<Node<T>>, list: Node?<T>, tail: Node?<T>, doubly: bool)
    reads out
  {
    && list == First(out) && tail == Last(out) && Linked(out)
    && (doubly ==> BackLinked(out) && (out != [] ==> out[0].prev == null))
  }

  /** The inputs of the merge loop: what is left of the first run, and the list from the second run on. */
  ghost predicate Inputs<T>(ps: seq<Node<T>>, rest: seq<Node<T>>, end: Node?<T>)
    reads ps, rest
  {
    Linked(ps) && Chain(rest, end)
  }

  /** The output and the two inputs of a merge share no node: together they are `bag`, in which every
      node occurs once. */
  ghost predicate Parts<T>(out: seq<Node<T>>, ps: seq<Node<T>>, rest: seq<Node<T>>, bag: multiset<Node<T>>) {
    Bag(out) + Bag(ps) + Bag(rest) == bag && forall n | n in bag :: bag[n] == 1
  }

  lemma Counted<T>(s: seq<Node<T>>, i: nat)
    requires i < |s|
    ensures Bag(s)[s[i]] >= 1
    ensures Bag(s[..|s| - 1])[s[i]] >= (if i < |s| - 1 then 1 else 0)
  {
    if i < |s| - 1 { assert s[..|s| - 1][i] == s[i]; }
  }

  /** The last node of the output is none of the nodes whose links the next step relies on. */
  lemma TailApart<T>(out: seq<Node<T>>, ps: seq<Node<T>>, rest: seq<Node<T>>, bag: multiset<Node<T>>)
    requires out != [] && Parts(out, ps, rest, bag)
    ensures Last(out) in bag
    ensures forall i :: 0 <= i < |out| - 1 ==> out[i] != Last(out)
    ensures forall i :: 0 <= i < |ps| ==> ps[i] != Last(out)
    ensures forall i :: 0 <= i < |rest| ==> rest[i] != Last(out)
  {
    var e := out[|out| - 1];
    assert out == out[..|out| - 1] + [e];
    assert Bag(out) == Bag(out[..|out| - 1]) + multiset{e};
    assert Bag(out)[e] >= 1 && e in bag && bag[e] == 1;
    forall i | 0 <= i < |out| - 1 ensures out[i] != e { Counted(out, i); }
    forall i | 0 <= i < |ps| ensures ps[i] != e { Counted(ps, i); }
    forall i | 0 <= i < |rest| ensures rest[i] != e { Counted(rest, i); }
  }

  /** Append `e` to the output: the end of the merge loop's body. */
  method Emit<T>(e: Node<T>, list0: Node?<T>, tail: Node?<T>, doubly: bool, end: Node?<T>, ghost bag: multiset<Node<T>>,
                 ghost out: seq<Node<T>>, ghost ps: seq<Node<T>>, ghost rest: seq<Node<T>>)
    returns (list: Node?<T>)
    requires Parts(out + [e], ps, rest, bag)
    requires Output(out, list0, tail, doubly) && Inputs(ps, rest, end)
    modifies set n | n in bag
    ensures Output(out + [e], list, e, doubly) && Inputs(ps, rest, end)
  {
    TailApart(out + [e], ps, rest, bag);
    assert forall i :: 0 <= i < |out| ==> (out + [e])[i] == out[i];
    if out != [] {
      assert Bag(out + [e]) == Bag(out) + multiset{e};
      TailApart(out, ps, rest, bag - multiset{e});
    }
    list := list0;
    if tail != null {
      tail.next := e;
    } else {
      list := e;
    }
    if doubly {
      e.prev := tail;
    }
  }

  /** What the merge loop still has to do: with `left` nodes of the second run remaining, the output
      and the merge of what remains make up the merge that was asked for. */
  ghost predicate Progress<T>(cmp: (T, T) -> int, goal: seq<Node<T>>, left: seq<Node<T>>,
                              out: seq<Node<T>>, ps: seq<Node<T>>, rest: seq<Node<T>>, qsize: nat)
  {
    out + Merge(Elt, cmp, ps, Take(rest, qsize)) == goal && Drop(rest, qsize) == left
  }

  lemma ProgressP<T>(cmp: (T, T) -> int, goal: seq<Node<T>>, left: seq<Node<T>>, e: Node<T>,
                     out: seq<Node<T>>, ps: seq<Node<T>>, rest: seq<Node<T>>, qsize: nat)
    requires Progress(cmp, goal, left, out, ps, rest, qsize) && ps != [] && e == ps[0]
    requires qsize == 0 || rest == [] || cmp(ps[0].elt, rest[0].elt) <= 0
    ensures Progress(cmp, goal, left, out + [e], ps[1..], rest, qsize)
  {
    var q := Take(rest, qsize);
    assert ps == [ps[0]] + ps[1..];
    assert Merge(Elt, cmp, ps, q) == [ps[0]] + Merge(Elt, cmp, ps[1..], q);
    assert out + ([ps[0]] + Merge(Elt, cmp, ps[1..], q)) == out + [ps[0]] + Merge(Elt, cmp, ps[1..], q);
  }

  lemma ProgressQ<T>(cmp: (T, T) -> int, goal: seq<Node<T>>, left: seq<Node<T>>, e: Node<T>,
                     out: seq<Node<T>>, ps: seq<Node<T>>, rest: seq<Node<T>>, qsize: nat)
    requires Progress(cmp, goal, left, out, ps, rest, qsize) && qsize > 0 && rest != [] && e == rest[0]
    requires ps == [] || cmp(ps[0].elt, rest[0].elt) > 0
    ensures Progress(cmp, goal, left, out + [e], ps, rest[1..], qsize - 1)
  {
    var q, q' := Take(rest, qsize), Take(rest[1..], qsize - 1);
    assert q == [rest[0]] + q' && q[1..] == q';
    assert Merge(Elt, cmp, ps, q) == [rest[0]] + Merge(Elt, cmp, ps, q');
    assert out + ([rest[0]] + Merge(Elt, cmp, ps, q')) == out + [rest[0]] + Merge(Elt, cmp, ps, q');
  }

  /** Nodes after the first of a list are never the pointer that marks its end. */
  ghost predicate EndOutside<T>(s: seq<Node<T>>, end: Node?<T>) {
    forall i :: 1 <= i < |s| ==> s[i] != end
  }

  function Next<T>(n: Node<T>, end: Node?<T>): Node?<T> reads n {
    if n.next == end then null else n.next
  }

  lemma ProgressDone<T>(cmp: (T, T) -> int, goal: seq<Node<T>>, left: seq<Node<T>>,
                        out: seq<Node<T>>, rest: seq<Node<T>>, qsize: nat)
    requires Progress(cmp, goal, left, out, [], rest, qsize) && (qsize == 0 || rest == [])
    ensures out == goal && rest == left
  {
    assert Take(rest, qsize) == [];
  }

  /** Walk past the first run: `psize` counts its nodes and `q` is the node after it. */
  method WalkRun<T>(p: Node<T>, insize: nat, end: Node?<T>, ghost rem: seq<Node<T>>)
    returns (q: Node?<T>, psize: nat)
    requires insize > 0 && rem != [] && p == rem[0] && Chain(rem, end) && EndOutside(rem, end)
    ensures psize == |Take(rem, insize)| && q == First(Drop(rem, insize))
  {
    q := p;
    psize := 0;
    var i := 0;
    while i < insize
      invariant psize == i <= insize && i <= |rem|
      invariant q == First(rem[i..]) && (i < insize ==> q != null)
    {
      assert q == rem[i] && (i + 1 < |rem| ==> rem[i].next == rem[i + 1]);
      psize := psize + 1;
      q := Next(q, end);
      if q == null { break; }
      i := i + 1;
    }
  }

  /** The state of the merge loop. */
  ghost predicate Merging<T>(out: seq<Node<T>>, ps: seq<Node<T>>, rest: seq<Node<T>>, bag: multiset<Node<T>>,
                             list: Node?<T>, tail: Node?<T>, doubly: bool, end: Node?<T>)
    reads out, ps, rest
  {
    && Parts(out, ps, rest, bag) && EndOutside(ps, end) && EndOutside(rest, end)
    && Output(out, list, tail, doubly) && Inputs(ps, rest, end)
  }

  /** The merge loop's step that takes a node of the first run. */
  method StepP<T>(e: Node<T>, list0: Node?<T>, tail: Node?<T>, doubly: bool, end: Node?<T>,
                  ghost bag: multiset<Node<T>>,
                  ghost out: seq<Node<T>>, ghost ps: seq<Node<T>>, ghost rest: seq<Node<T>>)
    returns (p: Node?<T>, list: Node?<T>)
    requires ps != [] && e == ps[0] && Merging(out, ps, rest, bag, list0, tail, doubly, end)
    modifies set n | n in bag
    ensures Merging(out + [e], ps[1..], rest, bag, list, e, doubly, end)
    ensures |ps| > 1 ==> p == ps[1]
  {
    p := Next(e, end);
    assert ps == [e] + ps[1..];
    assert Bag(out + [e]) == Bag(out) + multiset{e} && Bag(ps) == multiset{e} + Bag(ps[1..]);
    list := Emit(e, list0, tail, doubly, end, bag, out, ps[1..], rest);
  }

  /** The merge loop's step that takes a node of the second run. */
  method StepQ<T>(e: Node<T>, list0: Node?<T>, tail: Node?<T>, doubly: bool, end: Node?<T>,
                  ghost bag: multiset<Node<T>>,
                  ghost out: seq<Node<T>>, ghost ps: seq<Node<T>>, ghost rest: seq<Node<T>>)
    returns (q: Node?<T>, list: Node?<T>)
    requires rest != [] && e == rest[0] && Merging(out, ps, rest, bag, list0, tail, doubly, end)
    modifies set n | n in bag
    ensures Merging(out + [e], ps, rest[1..], bag, list, e, doubly, end)
    ensures q == First(rest[1..])
  {
    q := Next(e, end);
    assert rest == [e] + rest[1..];
    assert Bag(out + [e]) == Bag(out) + multiset{e} && Bag(rest) == multiset{e} + Bag(rest[1..]);
    assert q == First(rest[1..]);
    list := Emit(e, list0, tail, doubly, end, bag, out, ps, rest[1..]);
  }

  lemma SplitChain<T>(s: seq<Node<T>>, k: nat, end: Node?<T>)
    requires k <= |s| && Chain(s, end) && EndOutside(s, end)
    ensures Inputs(s[..k], s[k..], end) && EndOutside(s[..k], end) && EndOutside(s[k..], end)
    ensures Bag(s[..k]) + Bag(s[k..]) == Bag(s)
  {
    assert s == s[..k] + s[k..];
  }

  lemma SplitRuns<T>(out: seq<Node<T>>, rem: seq<Node<T>>, k: nat, bag: multiset<Node<T>>,
                     list: Node?<T>, tail: Node?<T>, doubly: bool, end: Node?<T>)
    requires k <= |rem| && Merging(out, [], rem, bag, list, tail, doubly, end)
    ensures Merging(out, rem[..k], rem[k..], bag, list, tail, doubly, end)
  {
    SplitChain(rem, k, end);
  }

  /** The merge loop: both runs go to the output, the smaller head first. */
  method MergeLoop<T>(p0: Node?<T>, q0: Node?<T>, psize0: nat, qsize0: nat, end: Node?<T>, doubly: bool,
                      cmp: (T, T) -> int, list0: Node?<T>, tail0: Node?<T>, ghost bag: multiset<Node<T>>,
                      ghost out0: seq<Node<T>>, ghost ps0: seq<Node<T>>, ghost rest0: seq<Node<T>>)
    returns (q: Node?<T>, list: Node?<T>, tail: Node?<T>, ghost out: seq<Node<T>>, ghost rest: seq<Node<T>>)
    requires |ps0| == psize0 && (psize0 > 0 ==> p0 == ps0[0]) && q0 == First(rest0)
    requires Merging(out0, ps0, rest0, bag, list0, tail0, doubly, end)
    modifies set n | n in bag
    ensures out == out0 + Merge(Elt, cmp, ps0, Take(rest0, qsize0))
    ensures rest == Drop(rest0, qsize0) && q == First(rest)
    ensures Merging(out, [], rest, bag, list, tail, doubly, end)
  {
    hide Merging;
    var p, psize, qsize := p0, psize0, qsize0;
    ghost var ps := ps0;
    q, list, tail, out, rest := q0, list0, tail0, out0, rest0;
    ghost var goal, left := out0 + Merge(Elt, cmp, ps0, Take(rest0, qsize0)), Drop(rest0, qsize0);
    while psize > 0 || (qsize > 0 && q != null)
      invariant |ps| == psize && (psize > 0 ==> p == ps[0]) && q == First(rest)
      invariant Progress(cmp, goal, left, out, ps, rest, qsize)
      invariant Merging(out, ps, rest, bag, list, tail, doubly, end)
      decreases psize + qsize
    {
      if psize > 0 && (qsize == 0 || q == null || cmp(p.elt, q.elt) <= 0) {
        var e: Node<T> := p;
        ProgressP(cmp, goal, left, e, out, ps, rest, qsize);
        p, list := StepP(e, list, tail, doubly, end, bag, out, ps, rest);
        tail := e;
        psize := psize - 1;
        out, ps := out + [e], ps[1..];
      } else {
        var e: Node<T> := q;
        ProgressQ(cmp, goal, left, e, out, ps, rest, qsize);
        q, list := StepQ(e, list, tail, doubly, end, bag, out, ps, rest);
        tail := e;
        qsize := qsize - 1;
        out, rest := out + [e], rest[1..];
      }
    }
    assert ps == [];
    ProgressDone(cmp, goal, left, out, rest, qsize);
  }

  /** One merge of a pass: two runs of at most `insize` nodes from the front of `rem` go to the output. */
  method MergeRuns<T>(p0: Node<T>, insize: nat, end: Node?<T>, doubly: bool, cmp: (T, T) -> int,
                      list0: Node?<T>, tail0: Node?<T>, ghost bag: multiset<Node<T>>,
                      ghost out0: seq<Node<T>>, ghost rem: seq<Node<T>>)
    returns (p: Node?<T>, list: Node?<T>, tail: Node?<T>, ghost out: seq<Node<T>>, ghost left: seq<Node<T>>)
    requires insize > 0 && rem != [] && p0 == rem[0]
    requires Merging(out0, [], rem, bag, list0, tail0, doubly, end)
    modifies set n | n in bag
    ensures out == out0 + Merge(Elt, cmp, Take(rem, insize), Take(Drop(rem, insize), insize))
    ensures left == Drop(Drop(rem, insize), insize) && p == First(left)
    ensures Merging(out, [], left, bag, list, tail, doubly, end)
  {
    var q, psize := WalkRun(p0, insize, end, rem);
    hide Merging;
    SplitRuns(out0, rem, psize, bag, list0, tail0, doubly, end);
    ghost var ps, rest := Take(rem, insize), Drop(rem, insize);
    assert ps == rem[..psize] && rest == rem[psize..];
    p, list, tail, out, left := MergeLoop(p0, q, psize, insize, end, doubly, cmp, list0, tail0, bag, out0, ps, rest);
  }

  // ---- passes ----

  /** What a pass has left to do: the runs in `rem` still have to be merged onto the output. */
  ghost predicate PassProgress<T>(cmp: (T, T) -> int, k: nat, s: seq<Node<T>>,
                                  out: seq<Node<T>>, rem: seq<Node<T>>, nmerges: nat)
    requires k > 0
  {
    out + Pass(Elt, cmp, k, rem) == Pass(Elt, cmp, k, s) && nmerges + Merges(k, |rem|) == Merges(k, |s|)
  }

  lemma PassStep<T>(cmp: (T, T) -> int, k: nat, s: seq<Node<T>>,
                    out: seq<Node<T>>, rem: seq<Node<T>>, nmerges: nat)
    requires k > 0 && rem != [] && PassProgress(cmp, k, s, out, rem, nmerges)
    ensures PassProgress(cmp, k, s, out + Merge(Elt, cmp, Take(rem, k), Take(Drop(rem, k), k)),
                         Drop(Drop(rem, k), k), nmerges + 1)
  {
    var left := Drop(Drop(rem, k), k);
    ConcatAssociative(out, Merge(Elt, cmp, Take(rem, k), Take(Drop(rem, k), k)), Pass(Elt, cmp, k, left));
  }

  lemma PassStarts<T>(cmp: (T, T) -> int, k: nat, s: seq<Node<T>>)
    requires k > 0
    ensures PassProgress(cmp, k, s, [], s, 0)
  {
    assert [] + Pass(Elt, cmp, k, s) == Pass(Elt, cmp, k, s);
  }

  lemma PassDone<T>(cmp: (T, T) -> int, k: nat, s: seq<Node<T>>, out: seq<Node<T>>, nmerges: nat)
    requires k > 0 && PassProgress(cmp, k, s, out, [], nmerges)
    ensures out == Pass(Elt, cmp, k, s) && nmerges == Merges(k, |s|)
  {}

  /** One pass over the whole list. */
  method SortPass<T>(list0: Node?<T>, insize: nat, end: Node?<T>, doubly: bool, cmp: (T, T) -> int,
                     ghost bag: multiset<Node<T>>, ghost s: seq<Node<T>>)
    returns (list: Node?<T>, tail: Node?<T>, nmerges: nat, ghost out: seq<Node<T>>)
    requires insize > 0 && list0 == First(s)
    requires Merging([], [], s, bag, null, null, doubly, end)
    modifies set n | n in bag
    ensures out == Pass(Elt, cmp, insize, s) && nmerges == Merges(insize, |s|)
    ensures Merging(out, [], [], bag, list, tail, doubly, end)
  {
    hide Merging, PassProgress;
    var p := list0;
    list, tail, nmerges, out := null, null, 0, [];
    ghost var rem := s;
    PassStarts(cmp, insize, s);
    while p != null
      invariant p == First(rem)
      invariant PassProgress(cmp, insize, s, out, rem, nmerges)
      invariant Merging(out, [], rem, bag, list, tail, doubly, end)
      decreases |rem|
    {
      PassStep(cmp, insize, s, out, rem, nmerges);
      nmerges := nmerges + 1;
      p, list, tail, out, rem := MergeRuns(p, insize, end, doubly, cmp, list, tail, bag, out, rem);
    }
    assert rem == [];
    PassDone(cmp, insize, s, out, nmerges);
  }

  // ---- the sorts ----

  lemma {:induction false} NoDupOnce<T>(s: seq<Node<T>>)
    requires NoDup(s)
    ensures forall n | n in Bag(s) :: Bag(s)[n] == 1
  {
    if s == [] {
    } else {
      var t, e := s[..|s| - 1], s[|s| - 1];
      NoDupOnce(t);
      assert s == t + [e] && Bag(s) == Bag(t) + multiset{e};
      assert e !in t && Bag(t)[e] == 0;
    }
  }

  lemma OnceNoDup<T>(s: seq<Node<T>>)
    requires forall n | n in Bag(s) :: Bag(s)[n] == 1
    ensures NoDup(s)
  {
    forall i, j | 0 <= i < j < |s| ensures s[i] != s[j] {
      var a, b := s[..j], s[j..];
      assert s == a + b && Bag(s) == Bag(a) + Bag(b);
      assert s[i] == a[i] && s[j] == b[0];
      assert Bag(a)[a[i]] >= 1 && Bag(b)[b[0]] >= 1;
      assert s[i] in Bag(s);
    }
  }

  /** What a pass needs of a list, and what it leaves. */
  lemma PassStart<T>(head: Node?<T>, s: seq<Node<T>>, doubly: bool, end: Node?<T>)
    requires NoDup(s) && Chain(s, end) && (end == null || end == First(s))
    ensures Merging([], [], s, Bag(s), null, null, doubly, end)
  {
    NoDupOnce(s);
  }

  lemma PassEnd<T>(out: seq<Node<T>>, bag: multiset<Node<T>>, list: Node?<T>, tail: Node?<T>,
                   doubly: bool, end: Node?<T>)
    requires Merging(out, [], [], bag, list, tail, doubly, end)
    ensures NoDup(out) && Bag(out) == bag
    ensures Output(out, list, tail, doubly)
  {
    OnceNoDup(out);
  }

  /** Sorting has reached runs of length `insize`, or is finished. */
  ghost predicate Sorting<T(!new)>(cmp: (T, T) -> int, s0: seq<Node<T>>, s: seq<Node<T>>, insize: nat, looping: bool)
    requires insize > 0
    ensures Sorting(cmp, s0, s, insize, looping) ==> |s| == |s0| && s != [] && (looping ==> insize <= |s|)
    ensures Sorting(cmp, s0, s, insize, false) ==> StableSortOf(Elt, cmp, s0, s)
  {
    && s != [] && |s| == |s0| && Stable(Elt, cmp, s0, s)
    && (looping ==> SortedRuns(Elt, cmp, insize, s) && insize <= |s|)
    && (!looping ==> StableSortOf(Elt, cmp, s0, s))
  }

  lemma SortingStarts<T(!new)>(cmp: (T, T) -> int, s: seq<Node<T>>)
    requires s != []
    ensures Sorting(cmp, s, s, 1, true)
  {
    SingletonRuns(Elt, cmp, s);
  }

  lemma SortingAdvances<T(!new)>(cmp: (T, T) -> int, s0: seq<Node<T>>, s: seq<Node<T>>, insize: nat)
    requires insize > 0 && Preorder(cmp) && Sorting(cmp, s0, s, insize, true)
    ensures Sorting(cmp, s0, Pass(Elt, cmp, insize, s), 2 * insize, Merges(insize, |s|) > 1)
    ensures multiset(Pass(Elt, cmp, insize, s)) == multiset(s)
    ensures Merges(insize, |s|) > 1 ==> 2 * insize < |s|
  {
    PassAdvances(Elt, cmp, insize, s0, s);
    PassMultiset(Elt, cmp, insize, s);
    var t := Pass(Elt, cmp, insize, s);
    assert |t| == |multiset(t)| == |multiset(s)| == |s|;
  }

  /** How a pass of `LL_SORT2` ends. */
  method FinishLL<T>(list: Node?<T>, tail: Node?<T>, ghost s: seq<Node<T>>)
    requires NoDup(s) && list == First(s) && tail == Last(s) && Linked(s)
    modifies tail
    ensures LL(list, s)
  {
    if tail != null {
      tail.next := null;
    }
  }

  /** How a pass of `DL_SORT2` ends. */
  method FinishDL<T>(list: Node?<T>, tail: Node?<T>, ghost s: seq<Node<T>>)
    requires NoDup(s) && list == First(s) && tail == Last(s) && Linked(s) && BackLinked(s) && s != []
    modifies list, tail
    ensures DL(list, s)
  {
    list.prev := tail;
    tail.next := null;
  }

  /** How a pass of `CDL_SORT2` ends. */
  method FinishCDL<T>(list: Node?<T>, tail: Node?<T>, ghost s: seq<Node<T>>)
    requires NoDup(s) && list == First(s) && tail == Last(s) && Linked(s) && BackLinked(s) && s != []
    modifies list, tail
    ensures CDL(list, s)
  {
    list.prev := tail;
    tail.next := list;
  }

  /** `LL_SORT2`. */
  method LLSort<T(!new)>(list0: Node?<T>, cmp: (T, T) -> int, ghost s0: seq<Node<T>>)
    returns (list: Node?<T>, ghost s: seq<Node<T>>)
    requires LL(list0, s0) && Preorder(cmp)
    modifies s0
    ensures LL(list, s) && StableSortOf(Elt, cmp, s0, s)
  {
    list, s := list0, s0;
    if list != null {
      var insize, looping := 1, true;
      SortingStarts(cmp, s);
      hide Sorting, Merging, Preorder, NoDup;
      while looping
        invariant insize > 0 && Sorting(cmp, s0, s, insize, looping)
        invariant LL(list, s) && Bag(s) == Bag(s0)
        decreases looping, |s0| - insize
      {
        ghost var before, k := s, insize;
        PassStart(list, s, false, null);
        SortingAdvances(cmp, s0, s, insize);
        var tail, nmerges;
        list, tail, nmerges, s := SortPass(list, insize, null, false, cmp, Bag(s0), s);
        PassEnd(s, Bag(s0), list, tail, false, null);
        FinishLL(list, tail, s);
        if nmerges <= 1 {
          looping := false;
        }
        insize := insize * 2;
        assert insize == 2 * k && looping == (Merges(k, |before|) > 1);
      }
    }
  }

  /** `DL_SORT2`. */
  method DLSort<T(!new)>(list0: Node?<T>, cmp: (T, T) -> int, ghost s0: seq<Node<T>>)
    returns (list: Node?<T>, ghost s: seq<Node<T>>)
    requires DL(list0, s0) && Preorder(cmp)
    modifies s0
    ensures DL(list, s) && StableSortOf(Elt, cmp, s0, s)
  {
    list, s := list0, s0;
    if list != null {
      var insize, looping := 1, true;
      SortingStarts(cmp, s);
      hide Sorting, Merging, Preorder, NoDup;
      while looping
        invariant insize > 0 && Sorting(cmp, s0, s, insize, looping)
        invariant DL(list, s) && Bag(s) == Bag(s0)
        decreases looping, |s0| - insize
      {
        ghost var before, k := s, insize;
        PassStart(list, s, true, null);
        SortingAdvances(cmp, s0, s, insize);
        var tail, nmerges;
        list, tail, nmerges, s := SortPass(list, insize, null, true, cmp, Bag(s0), s);
        PassEnd(s, Bag(s0), list, tail, true, null);
        FinishDL(list, tail, s);
        if nmerges <= 1 {
          looping := false;
        }
        insize := insize * 2;
        assert insize == 2 * k && looping == (Merges(k, |before|) > 1);
      }
    }
  }

  /** `CDL_SORT2`. */
  method CDLSort<T(!new)>(list0: Node?<T>, cmp: (T, T) -> int, ghost s0: seq<Node<T>>)
    returns (list: Node?<T>, ghost s: seq<Node<T>>)
    requires CDL(list0, s0) && Preorder(cmp)
    modifies s0
    ensures CDL(list, s) && StableSortOf(Elt, cmp, s0, s)
  {
    list, s := list0, s0;
    if list != null {
      var insize, looping := 1, true;
      SortingStarts(cmp, s);
      hide Sorting, Merging, Preorder, NoDup;
      while looping
        invariant insize > 0 && Sorting(cmp, s0, s, insize, looping)
        invariant CDL(list, s) && Bag(s) == Bag(s0)
        decreases looping, |s0| - insize
      {
        var oldhead := list;
        ghost var before, k := s, insize;
        PassStart(list, s, true, oldhead);
        SortingAdvances(cmp, s0, s, insize);
        var tail, nmerges;
        list, tail, nmerges, s := SortPass(list, insize, oldhead, true, cmp, Bag(s0), s);
        PassEnd(s, Bag(s0), list, tail, true, oldhead);
        FinishCDL(list, tail, s);
        if nmerges <= 1 {
          looping := false;
        }
        insize := insize * 2;
        assert insize == 2 * k && looping == (Merges(k, |before|) > 1);
      }
    }
  }
}
