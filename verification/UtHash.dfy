/** The hash table of src/external/uthash.h. A `UT_hash_handle` is two objects here: the element's node
    in the application-order list (`prev`, `next`), and the handle with the bucket links. */
module HashNodes {
  import opened ListNodes
  import opened Masks

  datatype Item<V> = Item(key: string, val: V)

  class Handle<V> {
    const node: Node<Item<V>>
    const hashv: nat
    var hhPrev: Handle?<V>
    var hhNext: Handle?<V>

    constructor (node: Node<Item<V>>, hashv: nat)
      ensures this.node == node && this.hashv == hashv
    {
      this.node := node;
      this.hashv := hashv;
      hhPrev := null;
      hhNext := null;
    }
  }

  datatype Bucket<V> = Bucket(hhHead: Handle?<V>, count: nat, expandMult: nat)

  function HashToBkt(hashv: nat, numBuckets: nat): nat
    requires numBuckets > 0
  {
    And(hashv, numBuckets - 1)
  }

  ghost function HBag<V>(s: seq<Handle<V>>): multiset<Handle<V>> {
    multiset(s)
  }

  ghost function Handles<V>(s: seq<Handle<V>>): set<Handle<V>> {
    set h | h in s
  }

  function NodesOf<V>(s: seq<Handle<V>>): (ns: seq<Node<Item<V>>>)
    ensures |ns| == |s| && forall i :: 0 <= i < |s| ==> ns[i] == s[i].node
  {
    seq(|s|, i requires 0 <= i < |s| => s[i].node)
  }
}

/** The application-order list: null-terminated at both ends, with a separate tail pointer. */
module HashOrder {
  import opened ListNodes
  import opened ListSort
  import opened StableSort

  ghost predicate HList<T>(head: Node?<T>, tail: Node?<T>, s: seq<Node<T>>) reads s {
    && NoDup(s) && head == First(s) && (s != [] ==> tail == Last(s))
    && Chain(s, null) && BackLinked(s) && (s != [] ==> s[0].prev == null)
  }

  /** How a pass of `HASH_SRT` ends. */
  method FinishPass<T>(list: Node?<T>, tail: Node?<T>, ghost s: seq<Node<T>>)
    requires NoDup(s) && Output(s, list, tail, true)
    modifies s
    ensures HList(list, tail, s)
  {
    if tail != null {
      tail.next := null;
    }
  }

  lemma OrderPassStart<T>(head: Node?<T>, tail: Node?<T>, s: seq<Node<T>>)
    requires HList(head, tail, s)
    ensures Merging([], [], s, Bag(s), null, null, true, null) && head == First(s)
  {
    PassStart(head, s, true, null);
  }

  lemma Ends<T>(head: Node?<T>, tail: Node?<T>, s: seq<Node<T>>)
    requires HList(head, tail, s) && s != []
    ensures head != null && tail != null
  {}

  /** The loop of `HASH_SRT`. */
  method SortOrder<T(!new)>(head0: Node<T>, tail0: Node<T>, cmp: (T, T) -> int, ghost s0: seq<Node<T>>)
    returns (head: Node<T>, tail: Node<T>, ghost s: seq<Node<T>>)
    requires HList(head0, tail0, s0) && s0 != [] && Preorder(cmp)
    modifies s0
    ensures HList(head, tail, s) && StableSortOf(Elt, cmp, s0, s) && Bag(s) == Bag(s0)
  {
    s := s0;
    var list: Node?<T>, last: Node?<T> := head0, tail0;
    var insize, looping := 1, true;
    SortingStarts(cmp, s);
    hide Sorting, Merging, Preorder, NoDup, HList, Output;
    while looping
      invariant insize > 0 && Sorting(cmp, s0, s, insize, looping)
      invariant HList(list, last, s) && Bag(s) == Bag(s0)
      decreases looping, |s0| - insize
    {
      ghost var before, k := s, insize;
      OrderPassStart(list, last, s);
      SortingAdvances(cmp, s0, s, insize);
      var nmerges;
      list, last, nmerges, s := SortPass(list, insize, null, true, cmp, Bag(s0), s);
      PassEnd(s, Bag(s0), list, last, true, null);
      FinishPass(list, last, s);
      if nmerges <= 1 {
        looping := false;
      }
      insize := insize * 2;
      assert insize == 2 * k && looping == (Merges(k, |before|) > 1);
    }
    Ends(list, last, s);
    head, tail := list, last;
  }

  /** `HASH_APPEND_LIST`. */
  method AppendList<T>(head: Node<T>, tail0: Node<T>, add: Node<T>, ghost s: seq<Node<T>>) returns (tail: Node<T>)
    requires HList(head, tail0, s) && add !in s
    modifies add, s
    ensures HList(head, tail, s + [add])
  {
    add.next := null;
    add.prev := tail0;
    tail0.next := add;
    tail := add;
  }

  /** Insert before `iter`, which is node `k`: the in-order branch of adding. */
  method InsertBefore<T>(head0: Node<T>, tail: Node<T>, iter: Node<T>, add: Node<T>, ghost s: seq<Node<T>>,
                         ghost k: nat)
    returns (head: Node<T>)
    requires HList(head0, tail, s) && k < |s| && s[k] == iter && add !in s
    modifies add, s
    ensures HList(head, tail, s[..k] + [add] + s[k..])
  {
    head := head0;
    assert iter.prev == if k == 0 then null else s[k - 1];
    add.next := iter;
    add.prev := iter.prev;
    if add.prev != null {
      add.prev.next := add;
    } else {
      head := add;
    }
    iter.prev := add;
  }

  /** The order-list half of `HASH_DELETE_HH`, for a list of at least two nodes. */
  method UnlinkOrder<T>(head0: Node<T>, tail0: Node<T>, del: Node<T>, ghost s: seq<Node<T>>, ghost k: nat)
    returns (head: Node<T>, tail: Node<T>)
    requires HList(head0, tail0, s) && |s| > 1 && k < |s| && s[k] == del
    modifies s
    ensures HList(head, tail, s[..k] + s[k + 1..])
  {
    head, tail := head0, tail0;
    assert del.prev == if k == 0 then null else s[k - 1];
    assert del.next == if k + 1 == |s| then null else s[k + 1];
    if del == tail {
      tail := del.prev;
    }
    if del.prev != null {
      del.prev.next := del.next;
    } else {
      head := del.next;
    }
    if del.next != null {
      del.next.prev := del.prev;
    }
  }
}

/** The bucket chains. */
module HashBuckets {
  import opened Masks
  import opened Chains
  import opened HashNodes

  /** One bucket as `HASH_FSCK` checks it: a doubly linked chain with an exact count. */
  ghost predicate ChainOk<V>(bkt: Bucket<V>, chain: seq<Handle<V>>) reads chain {
    && bkt.count == |chain|
    && bkt.hhHead == (if chain == [] then null else chain[0])
    && (forall i, j :: 0 <= i < j < |chain| ==> chain[i] != chain[j])
    && (forall i :: 0 <= i < |chain| - 1 ==> chain[i].hhNext == chain[i + 1])
    && (forall i :: 1 <= i < |chain| ==> chain[i].hhPrev == chain[i - 1])
    && (chain != [] ==> chain[0].hhPrev == null && chain[|chain| - 1].hhNext == null)
  }

  /** Every handle of the chain belongs in bucket `b`. */
  ghost predicate Belongs<V>(chain: seq<Handle<V>>, b: nat, n: nat)
    requires n > 0
  {
    forall i :: 0 <= i < |chain| ==> HashToBkt(chain[i].hashv, n) == b
  }

  ghost predicate ChainsOk<V>(buckets: seq<Bucket<V>>, chains: seq<seq<Handle<V>>>, hs: set<Handle<V>>)
    reads hs
  {
    && |buckets| == |chains| > 0
    && (forall b :: 0 <= b < |chains| ==> Handles(chains[b]) <= hs && Belongs(chains[b], b, |chains|))
    && (forall b :: 0 <= b < |chains| ==> ChainOk(buckets[b], chains[b]))
  }

  /** The linking steps of `HASH_ADD_TO_BKT`, which `HASH_EXPAND_BUCKETS` repeats for every handle. */
  method PushFront<V>(buckets: array<Bucket<V>>, b: nat, add: Handle<V>, ghost chain: seq<Handle<V>>)
    requires b < buckets.Length && ChainOk(buckets[b], chain) && add !in chain
    modifies buckets, add, chain
    ensures buckets[..] == old(buckets[..])[b := old(buckets[b]).(hhHead := add, count := |chain| + 1)]
    ensures ChainOk(buckets[b], [add] + chain)
  {
    var bkt := buckets[b];
    add.hhNext := bkt.hhHead;
    add.hhPrev := null;
    if bkt.hhHead != null {
      bkt.hhHead.hhPrev := add;
    }
    buckets[b] := bkt.(hhHead := add, count := bkt.count + 1);
  }

  /** `HASH_DEL_IN_BKT`. */
  method UnlinkBucket<V>(buckets: array<Bucket<V>>, b: nat, del: Handle<V>, ghost chain: seq<Handle<V>>, ghost k: nat)
    requires b < buckets.Length && ChainOk(buckets[b], chain) && k < |chain| && chain[k] == del
    modifies buckets, chain
    ensures buckets[..] == old(buckets[..])[b := buckets[b]] && buckets[b].expandMult == old(buckets[b].expandMult)
    ensures ChainOk(buckets[b], chain[..k] + chain[k + 1..])
  {
    var bkt := buckets[b];
    bkt := bkt.(count := bkt.count - 1);
    assert chain[k].hhPrev == if k > 0 then chain[k - 1] else null;
    assert chain[k].hhNext == if k + 1 < |chain| then chain[k + 1] else null;
    if bkt.hhHead == del {
      bkt := bkt.(hhHead := del.hhNext);
    }
    if del.hhPrev != null {
      del.hhPrev.hhNext := del.hhNext;
    }
    if del.hhNext != null {
      del.hhNext.hhPrev := del.hhPrev;
    }
    buckets[b] := bkt;
  }

  lemma BucketInRange(hashv: nat, n: nat)
    requires n > 0
    ensures HashToBkt(hashv, n) < n
  {
    AndBound(hashv, n - 1);
  }

  /** Different buckets hold different handles, because a handle's hash names its bucket. */
  lemma BucketsApart<V>(chains: seq<seq<Handle<V>>>, b: nat, c: nat)
    requires b < |chains| && c < |chains| && b != c
    requires Belongs(chains[b], b, |chains|) && Belongs(chains[c], c, |chains|)
    ensures Handles(chains[b]) !! Handles(chains[c])
  {
    forall h | h in chains[b] ensures HashToBkt(h.hashv, |chains|) == b {}
    forall h | h in chains[c] ensures HashToBkt(h.hashv, |chains|) == c {}
  }

  /** `HASH_TO_BKT` and the linking steps of `HASH_ADD_TO_BKT`. */
  method AddToChain<V>(buckets: array<Bucket<V>>, add: Handle<V>, ghost chains: seq<seq<Handle<V>>>,
                       ghost hs: set<Handle<V>>)
    returns (b: nat)
    requires ChainsOk(buckets[..], chains, hs) && add !in hs
    modifies buckets, add, hs
    ensures b < |chains| && b == HashToBkt(add.hashv, |chains|)
    ensures ChainsOk(buckets[..], chains[b := [add] + chains[b]], hs + {add})
    ensures forall c :: 0 <= c < |chains| ==> buckets[c].expandMult == old(buckets[..])[c].expandMult
  {
    b := HashToBkt(add.hashv, buckets.Length);
    BucketInRange(add.hashv, buckets.Length);
    ghost var old0 := buckets[..];
    assert ChainOk(old0[b], chains[b]);
    forall c | 0 <= c < |chains| && c != b ensures Handles(chains[b]) !! Handles(chains[c]) {
      BucketsApart(chains, b, c);
    }
    assert add !in Handles(chains[b]);
    PushFront(buckets, b, add, chains[b]);
    ghost var chains' := chains[b := [add] + chains[b]];
    forall c | 0 <= c < |chains'|
      ensures Handles(chains'[c]) <= hs + {add} && Belongs(chains'[c], c, |chains'|) && ChainOk(buckets[c], chains'[c])
    {
      if c != b {
        assert ChainOk(old0[c], chains[c]);
      }
    }
  }

  /** `HASH_TO_BKT` and `HASH_DEL_IN_BKT`. */
  method RemoveFromChain<V>(buckets: array<Bucket<V>>, del: Handle<V>, ghost chains: seq<seq<Handle<V>>>,
                            ghost hs: set<Handle<V>>, ghost k: nat)
    returns (b: nat)
    requires ChainsOk(buckets[..], chains, hs)
    requires HashToBkt(del.hashv, |chains|) < |chains| && k < |chains[HashToBkt(del.hashv, |chains|)]|
    requires chains[HashToBkt(del.hashv, |chains|)][k] == del
    modifies buckets, hs
    ensures b < |chains| && b == HashToBkt(del.hashv, |chains|)
    ensures ChainsOk(buckets[..], chains[b := chains[b][..k] + chains[b][k + 1..]], hs)
    ensures forall c :: 0 <= c < |chains| ==> buckets[c].expandMult == old(buckets[..])[c].expandMult
  {
    b := HashToBkt(del.hashv, buckets.Length);
    ghost var old0 := buckets[..];
    assert ChainOk(old0[b], chains[b]);
    forall c | 0 <= c < |chains| && c != b ensures Handles(chains[b]) !! Handles(chains[c]) {
      BucketsApart(chains, b, c);
    }
    UnlinkBucket(buckets, b, del, chains[b], k);
    ghost var chain' := chains[b][..k] + chains[b][k + 1..];
    ghost var chains' := chains[b := chain'];
    assert forall h :: h in chain' ==> h in chains[b];
    assert forall i :: 0 <= i < |chain'| ==> chain'[i] in chains[b];
    forall c | 0 <= c < |chains'|
      ensures Handles(chains'[c]) <= hs && Belongs(chains'[c], c, |chains'|) && ChainOk(buckets[c], chains'[c])
    {
      if c != b {
        assert ChainOk(old0[c], chains[c]);
      }
    }
  }
}

/** `HASH_EXPAND_BUCKETS`. */
module HashExpand {
  import opened Masks
  import opened Chains
  import opened HashNodes
  import opened HashBuckets

  /** The singly linked list still to be walked through `hhNext`. */
  ghost predicate NextLinked<V>(s: seq<Handle<V>>) reads s {
    && (forall i :: 0 <= i < |s| - 1 ==> s[i].hhNext == s[i + 1])
    && (s != [] ==> s[|s| - 1].hhNext == null)
  }

  function InBkt<V>(b: nat, n: nat): Handle<V> -> bool
    requires n > 0
  {
    (h: Handle<V>) => HashToBkt(h.hashv, n) == b
  }

  /** The handles of old bucket `b` that have been moved when the walk is at position `k` of bucket `i`. */
  ghost function Moved<V>(chains: seq<seq<Handle<V>>>, b: nat, i: nat, k: nat): seq<Handle<V>>
    requires b < |chains| && (b == i ==> k <= |chains[b]|)
  {
    if b < i then chains[b] else if b == i then chains[b][..k] else []
  }

  /** The old bucket whose handles can come to new bucket `c`. */
  function OldBkt(c: nat, n: nat): nat
    requires c < 2 * n
  {
    if c < n then c else c - n
  }

  /** Each new bucket holds the moved handles of its one old bucket that hash to it, last one first. */
  ghost predicate Redistributed<V>(chains: seq<seq<Handle<V>>>, newChains: seq<seq<Handle<V>>>, i: nat, k: nat)
    requires i < |chains| ==> k <= |chains[i]|
  {
    && |newChains| == 2 * |chains|
    && forall c :: 0 <= c < |newChains| ==>
         newChains[c] == RevFilter(InBkt(c, |newChains|), Moved(chains, OldBkt(c, |chains|), i, k))
  }

  lemma NextPow2(k: nat)
    ensures Pow2(k + 1) == 2 * Pow2(k) && Pow2(1) == 2
  {}

  /** A handle of old bucket `b` goes to new bucket `b` or `b + n`. */
  lemma GoesToOneOfTwo(hashv: nat, log: nat)
    ensures var n := Pow2(log);
            var c := HashToBkt(hashv, 2 * n);
            c < 2 * n && OldBkt(c, n) == HashToBkt(hashv, n)
  {
    hide And, Pow2;
    AndMask(hashv, log);
    AndMask(hashv, log + 1);
    NextPow2(log);
    RemainderSplits(hashv, Pow2(log));
    BucketInRange(hashv, 2 * Pow2(log));
  }

  lemma RedistributeStep<V>(chains: seq<seq<Handle<V>>>, newChains: seq<seq<Handle<V>>>, i: nat, k: nat, log: nat,
                            c: nat)
    requires |chains| == Pow2(log) && i < |chains| && k < |chains[i]| && Belongs(chains[i], i, |chains|)
    requires Redistributed(chains, newChains, i, k)
    requires c == HashToBkt(chains[i][k].hashv, |newChains|) && c < |newChains|
    ensures Redistributed(chains, newChains[c := [chains[i][k]] + newChains[c]], i, k + 1)
  {
    var n, h := |chains|, chains[i][k];
    GoesToOneOfTwo(h.hashv, log);
    assert chains[i][..k + 1][..k] == chains[i][..k] && chains[i][..k + 1][k] == h;
    forall d | 0 <= d < 2 * n
      ensures newChains[c := [h] + newChains[c]][d] == RevFilter(InBkt(d, 2 * n), Moved(chains, OldBkt(d, n), i, k + 1))
    {
      if OldBkt(d, n) == i {
        assert |Moved(chains, i, i, k + 1)| == k + 1;
        assert InBkt(d, 2 * n)(h) <==> d == c;
      }
    }
  }

  lemma RedistributeNext<V>(chains: seq<seq<Handle<V>>>, newChains: seq<seq<Handle<V>>>, i: nat)
    requires i < |chains| && Redistributed(chains, newChains, i, |chains[i]|)
    ensures Redistributed(chains, newChains, i + 1, 0)
  {
    forall c | 0 <= c < |newChains|
      ensures Moved(chains, OldBkt(c, |chains|), i + 1, 0) == Moved(chains, OldBkt(c, |chains|), i, |chains[i]|)
    {
      if OldBkt(c, |chains|) == i { assert chains[i][..|chains[i]|] == chains[i]; }
    }
  }

  /** Chains of distinct handles, each in the bucket of its hash. */
  ghost predicate Arranged<V>(chains: seq<seq<Handle<V>>>) {
    && (forall b :: 0 <= b < |chains| ==> Belongs(chains[b], b, |chains|))
    && (forall b :: 0 <= b < |chains| ==> forall x, y :: 0 <= x < y < |chains[b]| ==> chains[b][x] != chains[b][y])
  }

  /** Expansion keeps exactly the same handles. */
  lemma RedistributionKeeps<V>(chains: seq<seq<Handle<V>>>, newChains: seq<seq<Handle<V>>>, log: nat)
    requires |chains| == Pow2(log) && Redistributed(chains, newChains, |chains|, 0)
    requires Arranged(chains)
    ensures HBag(Flat(newChains)) == HBag(Flat(chains))
  {
    var n := |chains|;
    var low, high := newChains[..n], newChains[n..];
    forall b | 0 <= b < n ensures multiset(low[b]) + multiset(high[b]) == multiset(chains[b]) {
      var p, q := InBkt<V>(b, 2 * n), InBkt<V>(b + n, 2 * n);
      forall i | 0 <= i < |chains[b]| ensures p(chains[b][i]) != q(chains[b][i]) {
        GoesToOneOfTwo(chains[b][i].hashv, log);
      }
      assert low[b] == newChains[b] && high[b] == newChains[b + n];
      assert OldBkt(b + n, n) == b && OldBkt(b, n) == b;
      RevFilterPartition(p, q, chains[b]);
    }
    SplitKeepsElements(chains, low, high);
    assert newChains == low + high;
  }

  /** `ideal_chain_maxlen` by shift and mask. */
  function IdealMaxLen(numItems: nat, numBuckets: nat, log2NumBuckets: nat): nat
    requires numBuckets > 0
  {
    Shr(numItems, log2NumBuckets + 1) + (if And(numItems, numBuckets * 2 - 1) != 0 then 1 else 0)
  }

  lemma CeilingOf(a: nat, n: nat)
    requires n > 0
    ensures IsCeiling(a / n + (if a % n != 0 then 1 else 0), a, n)
  {
    var q, r := a / n, a % n;
    assert a == n * q + r;
    MulSplit(n, q, 1);
  }

  /** It is the number of items per new bucket, rounded up. */
  lemma IdealIsCeiling(numItems: nat, log: nat)
    ensures IsCeiling(IdealMaxLen(numItems, Pow2(log), log), numItems, 2 * Pow2(log))
  {
    var n := Pow2(log + 1);
    ShrDivides(numItems, log + 1);
    AndMask(numItems, log + 1);
    assert n == 2 * Pow2(log);
    hide *;
    CeilingOf(numItems, n);
  }

  /** Each bucket's multiple of the ideal length, as the counting while its chain grows leaves it. */
  ghost predicate Multiplied<V>(buckets: seq<Bucket<V>>, chains: seq<seq<Handle<V>>>, ideal: nat) {
    |buckets| == |chains| && forall b :: 0 <= b < |chains| ==> buckets[b].expandMult == Multiple(|chains[b]|, ideal)
  }

  lemma MultipliedStep<V>(buckets: seq<Bucket<V>>, chains: seq<seq<Handle<V>>>, ideal: nat, c: nat, add: Handle<V>,
                          after: seq<Bucket<V>>)
    requires Multiplied(buckets, chains, ideal) && c < |chains| && |after| == |buckets|
    requires forall b :: 0 <= b < |chains| && b != c ==> after[b].expandMult == buckets[b].expandMult
    requires var n, m := |chains[c]| + 1, buckets[c].expandMult;
             after[c].expandMult == if n > ideal && n > m * ideal then m + 1 else m
    ensures Multiplied(after, chains[c := [add] + chains[c]], ideal)
  {}

  method SetExpandMult<V>(buckets: array<Bucket<V>>, b: nat, mult: nat, ghost chains: seq<seq<Handle<V>>>,
                          ghost hs: set<Handle<V>>)
    requires ChainsOk(buckets[..], chains, hs) && b < buckets.Length
    modifies buckets
    ensures buckets[..] == old(buckets[..])[b := old(buckets[b]).(expandMult := mult)]
    ensures ChainsOk(buckets[..], chains, hs)
  {
    ghost var old0 := buckets[..];
    buckets[b] := buckets[b].(expandMult := mult);
    forall c | 0 <= c < |chains| ensures ChainOk(buckets[c], chains[c]) {
      assert ChainOk(old0[c], chains[c]);
    }
  }

  /** Move one handle to its new bucket, with the chain-quality accounting. */
  method MoveHandle<V>(newBuckets: array<Bucket<V>>, thh: Handle<V>, ideal: nat, nonideal0: nat,
                       ghost newChains: seq<seq<Handle<V>>>, ghost moved: set<Handle<V>>)
    returns (nonideal: nat, ghost c: nat)
    requires ChainsOk(newBuckets[..], newChains, moved) && thh !in moved
    requires nonideal0 == NonIdeal(newChains, ideal) && Multiplied(newBuckets[..], newChains, ideal)
    modifies newBuckets, thh, moved
    ensures c < |newChains| && c == HashToBkt(thh.hashv, |newChains|)
    ensures ChainsOk(newBuckets[..], newChains[c := [thh] + newChains[c]], moved + {thh})
    ensures nonideal == NonIdeal(newChains[c := [thh] + newChains[c]], ideal)
    ensures Multiplied(newBuckets[..], newChains[c := [thh] + newChains[c]], ideal)
  {
    hide Multiplied, Multiple;
    ghost var before := newBuckets[..];
    var b := HashToBkt(thh.hashv, newBuckets.Length);
    BucketInRange(thh.hashv, newBuckets.Length);
    nonideal := nonideal0;
    var bkt := newBuckets[b];
    assert ChainOk(newBuckets[..][b], newChains[b]);
    var count := bkt.count + 1;
    NonIdealUpdate(newChains, b, [thh] + newChains[b], ideal);
    if count > ideal {
      nonideal := nonideal + 1;
      if count > bkt.expandMult * ideal {
        SetExpandMult(newBuckets, b, bkt.expandMult + 1, newChains, moved);
      }
    }
    b := AddToChain(newBuckets, thh, newChains, moved);
    c := b;
    MultipliedStep(before, newChains, ideal, c, thh, newBuckets[..]);
  }

  /** The handles not yet moved are still linked, and none of them has been moved. */
  ghost predicate Waiting<V>(chains: seq<seq<Handle<V>>>, i: nat, moved: set<Handle<V>>, hs: set<Handle<V>>)
    reads hs
  {
    forall b :: i <= b < |chains| ==>
      Handles(chains[b]) <= hs && Handles(chains[b]) !! moved && NextLinked(chains[b])
  }

  function HeadOf<V>(s: seq<Handle<V>>): Handle?<V> {
    if s == [] then null else s[0]
  }

  /** The state of the inner loop: `k` handles of old bucket `i` have been moved. */
  ghost predicate Moving<V>(chains: seq<seq<Handle<V>>>, i: nat, k: nat, log: nat, hs: set<Handle<V>>,
                            newBuckets: seq<Bucket<V>>, newChains: seq<seq<Handle<V>>>, moved: set<Handle<V>>)
    reads hs
  {
    && |chains| == Pow2(log) && i < |chains| && k <= |chains[i]|
    && Arranged(chains)
    && Handles(chains[i][k..]) !! moved && Handles(chains[i][k..]) <= hs
    && NextLinked(chains[i][k..])
    && Waiting(chains, i + 1, moved, hs) && moved <= hs
    && ChainsOk(newBuckets, newChains, moved) && Redistributed(chains, newChains, i, k)
  }

  lemma MovingStarts<V>(chains: seq<seq<Handle<V>>>, i: nat, log: nat, hs: set<Handle<V>>,
                        newBuckets: seq<Bucket<V>>, newChains: seq<seq<Handle<V>>>, moved: set<Handle<V>>)
    requires |chains| == Pow2(log) && i < |chains| && Arranged(chains)
    requires Waiting(chains, i, moved, hs) && moved <= hs
    requires ChainsOk(newBuckets, newChains, moved) && Redistributed(chains, newChains, i, 0)
    ensures Moving(chains, i, 0, log, hs, newBuckets, newChains, moved)
  {
    assert chains[i][0..] == chains[i];
  }

  lemma MovingEnds<V>(chains: seq<seq<Handle<V>>>, i: nat, log: nat, hs: set<Handle<V>>,
                      newBuckets: seq<Bucket<V>>, newChains: seq<seq<Handle<V>>>, moved: set<Handle<V>>)
    requires i < |chains| && Moving(chains, i, |chains[i]|, log, hs, newBuckets, newChains, moved)
    ensures Waiting(chains, i + 1, moved, hs) && moved <= hs
    ensures ChainsOk(newBuckets, newChains, moved) && Redistributed(chains, newChains, i + 1, 0)
  {
    RedistributeNext(chains, newChains, i);
  }

  /** One round of the inner loop. */
  method MoveOne<V>(newBuckets: array<Bucket<V>>, thh: Handle<V>, ideal: nat, nonideal0: nat,
                    ghost chains: seq<seq<Handle<V>>>, ghost i: nat, ghost k: nat, ghost log: nat,
                    ghost hs: set<Handle<V>>,
                    ghost newChains0: seq<seq<Handle<V>>>, ghost moved0: set<Handle<V>>)
    returns (next: Handle?<V>, nonideal: nat, ghost newChains: seq<seq<Handle<V>>>, ghost moved: set<Handle<V>>)
    requires i < |chains| && k < |chains[i]| && thh == chains[i][k]
    requires Moving(chains, i, k, log, hs, newBuckets[..], newChains0, moved0)
    requires nonideal0 == NonIdeal(newChains0, ideal) && Multiplied(newBuckets[..], newChains0, ideal)
    modifies newBuckets, hs
    ensures Moving(chains, i, k + 1, log, hs, newBuckets[..], newChains, moved)
    ensures next == HeadOf(chains[i][k + 1..])
    ensures nonideal == NonIdeal(newChains, ideal) && Multiplied(newBuckets[..], newChains, ideal)
  {
    hide Redistributed, ChainsOk, NonIdeal, Pow2, ChainOk, HashToBkt, Multiplied;
    ghost var rest := chains[i][k..];
    assert rest[0] == thh && thh in rest && chains[i][k + 1..] == rest[1..];
    next := thh.hhNext;
    assert rest[0].hhNext == HeadOf(rest[1..]);
    forall b | i + 1 <= b < |chains| ensures thh !in chains[b] {
      BucketsApart(chains, i, b);
    }
    ghost var c;
    nonideal, c := MoveHandle(newBuckets, thh, ideal, nonideal0, newChains0, moved0);
    RedistributeStep(chains, newChains0, i, k, log, c);
    newChains, moved := newChains0[c := [thh] + newChains0[c]], moved0 + {thh};
    forall h | h in rest[1..] ensures h in rest && h != thh {
      var x :| 0 <= x < |rest[1..]| && rest[1..][x] == h;
      assert h == chains[i][k + 1 + x];
    }
  }

  /** The inner loop of `HASH_EXPAND_BUCKETS`: move every handle of old bucket `i`. */
  method MoveBucket<V>(newBuckets: array<Bucket<V>>, hhHead: Handle?<V>, ideal: nat, nonideal0: nat,
                       ghost chains: seq<seq<Handle<V>>>, ghost i: nat, ghost log: nat, ghost hs: set<Handle<V>>,
                       ghost newChains0: seq<seq<Handle<V>>>, ghost moved0: set<Handle<V>>)
    returns (nonideal: nat, ghost newChains: seq<seq<Handle<V>>>, ghost moved: set<Handle<V>>)
    requires i < |chains| && hhHead == HeadOf(chains[i])
    requires Moving(chains, i, 0, log, hs, newBuckets[..], newChains0, moved0)
    requires nonideal0 == NonIdeal(newChains0, ideal) && Multiplied(newBuckets[..], newChains0, ideal)
    modifies newBuckets, hs
    ensures Moving(chains, i, |chains[i]|, log, hs, newBuckets[..], newChains, moved)
    ensures nonideal == NonIdeal(newChains, ideal) && Multiplied(newBuckets[..], newChains, ideal)
  {
    hide Moving, NonIdeal, Multiplied;
    var thh := hhHead;
    ghost var k := 0;
    nonideal, newChains, moved := nonideal0, newChains0, moved0;
    assert chains[i][0..] == chains[i];
    while thh != null
      invariant 0 <= k <= |chains[i]| && thh == HeadOf(chains[i][k..])
      invariant Moving(chains, i, k, log, hs, newBuckets[..], newChains, moved)
      invariant nonideal == NonIdeal(newChains, ideal) && Multiplied(newBuckets[..], newChains, ideal)
      decreases |chains[i]| - k
    {
      thh, nonideal, newChains, moved :=
        MoveOne(newBuckets, thh, ideal, nonideal, chains, i, k, log, hs, newChains, moved);
      k := k + 1;
    }
  }

  lemma AllWaiting<V>(buckets: seq<Bucket<V>>, chains: seq<seq<Handle<V>>>, hs: set<Handle<V>>)
    requires ChainsOk(buckets, chains, hs)
    ensures Arranged(chains) && Waiting(chains, 0, {}, hs)
    ensures |buckets| == |chains| && forall b :: 0 <= b < |chains| ==> buckets[b].hhHead == HeadOf(chains[b])
  {
    forall b | 0 <= b < |chains| ensures ChainOk(buckets[b], chains[b]) && NextLinked(chains[b]) {}
  }

  lemma {:induction false} NoneNonIdeal<E>(chains: seq<seq<E>>, ideal: nat)
    requires forall b :: 0 <= b < |chains| ==> chains[b] == []
    ensures NonIdeal(chains, ideal) == 0
  {
    if chains == [] {
    } else {
      NoneNonIdeal(chains[1..], ideal);
    }
  }

  lemma NoneMoved<V>(chains: seq<seq<Handle<V>>>, newBuckets: seq<Bucket<V>>, newChains: seq<seq<Handle<V>>>,
                     ideal: nat)
    requires |newBuckets| == |newChains| == 2 * |chains| > 0
    requires forall b :: 0 <= b < |newChains| ==> newChains[b] == [] && newBuckets[b] == Bucket(null, 0, 0)
    ensures ChainsOk(newBuckets, newChains, {}) && Redistributed(chains, newChains, 0, 0)
    ensures NonIdeal(newChains, ideal) == 0 && Multiplied(newBuckets, newChains, ideal)
  {
    NoneNonIdeal(newChains, ideal);
  }

  /** The loops of `HASH_EXPAND_BUCKETS`: every handle goes to its bucket among twice as many. */
  method MoveAll<V>(buckets: array<Bucket<V>>, ideal: nat, ghost chains: seq<seq<Handle<V>>>, ghost log: nat,
                    ghost hs: set<Handle<V>>)
    returns (newBuckets: array<Bucket<V>>, nonideal: nat,
             ghost newChains: seq<seq<Handle<V>>>, ghost moved: set<Handle<V>>)
    requires |chains| == Pow2(log) && ChainsOk(buckets[..], chains, hs)
    modifies hs
    ensures fresh(newBuckets) && newBuckets.Length == 2 * buckets.Length
    ensures moved <= hs
    ensures ChainsOk(newBuckets[..], newChains, moved) && Redistributed(chains, newChains, |chains|, 0)
    ensures nonideal == NonIdeal(newChains, ideal) && Multiplied(newBuckets[..], newChains, ideal)
  {
    hide *;
    ghost var bs := buckets[..];
    AllWaiting(bs, chains, hs);
    var zero := Bucket<V>.Bucket(null, 0, 0);
    newBuckets := new Bucket<V>[buckets.Length * 2](_ => zero);
    nonideal := 0;
    newChains := seq(2 * |chains|, _ => []);
    moved := {};
    NoneMoved(chains, newBuckets[..], newChains, ideal);
    var i := 0;
    while i < buckets.Length
      invariant 0 <= i <= buckets.Length && buckets[..] == bs
      invariant Waiting(chains, i, moved, hs) && moved <= hs
      invariant ChainsOk(newBuckets[..], newChains, moved) && Redistributed(chains, newChains, i, 0)
      invariant nonideal == NonIdeal(newChains, ideal) && Multiplied(newBuckets[..], newChains, ideal)
    {
      MovingStarts(chains, i, log, hs, newBuckets[..], newChains, moved);
      nonideal, newChains, moved :=
        MoveBucket(newBuckets, buckets[i].hhHead, ideal, nonideal, chains, i, log, hs, newChains, moved);
      MovingEnds(chains, i, log, hs, newBuckets[..], newChains, moved);
      i := i + 1;
    }
  }
}
