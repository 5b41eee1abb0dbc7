/** What a table of handles means: a list in application order and, when the keys are distinct, a map. */
module HashModel {
  import opened Sequences
  import opened ListNodes
  import opened HashNodes

  function KeyOf<V>(h: Handle<V>): string { h.node.elt.key }

  ghost predicate HasKey<V>(order: seq<Handle<V>>, key: string) {
    exists i :: 0 <= i < |order| && KeyOf(order[i]) == key
  }

  ghost predicate DistinctKeys<V>(order: seq<Handle<V>>) {
    forall i, j :: 0 <= i < j < |order| ==> KeyOf(order[i]) != KeyOf(order[j])
  }

  ghost function AsMap<V>(order: seq<Handle<V>>): map<string, Handle<V>> {
    if order == [] then map[]
    else AsMap(order[..|order| - 1])[KeyOf(order[|order| - 1]) := order[|order| - 1]]
  }

  lemma {:induction false} MapKeys<V>(order: seq<Handle<V>>, key: string)
    ensures key in AsMap(order) <==> HasKey(order, key)
  {
    if order == [] {
    } else {
      var t, e := order[..|order| - 1], order[|order| - 1];
      MapKeys(t, key);
      if HasKey(order, key) && KeyOf(e) != key {
        var i :| 0 <= i < |order| && KeyOf(order[i]) == key;
        assert t[i] == order[i];
      }
      if HasKey(t, key) {
        var i :| 0 <= i < |t| && KeyOf(t[i]) == key;
        assert order[i] == t[i];
      }
    }
  }

  /** With distinct keys the map gives every element for its own key. */
  lemma {:induction false} MapValue<V>(order: seq<Handle<V>>, i: nat)
    requires DistinctKeys(order) && i < |order|
    ensures KeyOf(order[i]) in AsMap(order) && AsMap(order)[KeyOf(order[i])] == order[i]
  {
    var t := order[..|order| - 1];
    if i == |t| {
    } else {
      assert DistinctKeys(t);
      MapValue(t, i);
      assert t[i] == order[i];
    }
  }

  lemma OnceIn<V>(s: seq<Handle<V>>, x: nat)
    requires DistinctKeys(s) && x < |s|
    ensures HBag(s)[s[x]] == 1
  {
    assert s == s[..x] + [s[x]] + s[x + 1..];
    assert HBag(s) == HBag(s[..x]) + multiset{s[x]} + HBag(s[x + 1..]);
    assert s[x] !in s[..x] && s[x] !in s[x + 1..];
  }

  lemma TwiceIn<V>(s: seq<Handle<V>>, i: nat, j: nat)
    requires i < j < |s| && s[i] == s[j]
    ensures HBag(s)[s[i]] >= 2
  {
    assert s == s[..j] + s[j..];
    assert HBag(s) == HBag(s[..j]) + HBag(s[j..]);
    assert s[..j][i] == s[i] && s[j..][0] == s[j];
  }

  lemma PermutationDistinct<V>(a: seq<Handle<V>>, b: seq<Handle<V>>)
    requires HBag(a) == HBag(b) && DistinctKeys(a)
    ensures DistinctKeys(b)
  {
    forall i, j | 0 <= i < j < |b| ensures KeyOf(b[i]) != KeyOf(b[j]) {
      assert b[i] in HBag(b) && b[j] in HBag(b);
      var x :| 0 <= x < |a| && a[x] == b[i];
      var y :| 0 <= y < |a| && a[y] == b[j];
      if x == y {
        // the same handle twice in b would be twice in a
        OnceIn(a, x);
        TwiceIn(b, i, j);
      }
    }
  }

  /** The map depends on the elements only, not on their order. */
  lemma MapOfPermutation<V>(a: seq<Handle<V>>, b: seq<Handle<V>>)
    requires HBag(a) == HBag(b) && DistinctKeys(a)
    ensures DistinctKeys(b) && AsMap(b) == AsMap(a)
  {
    PermutationDistinct(a, b);
    assert forall h :: h in a <==> h in HBag(a);
    assert forall h :: h in b <==> h in HBag(b);
    forall key ensures key in AsMap(a) <==> key in AsMap(b) {
      MapKeys(a, key);
      MapKeys(b, key);
      if HasKey(a, key) {
        var i :| 0 <= i < |a| && KeyOf(a[i]) == key;
        assert a[i] in b;
      }
      if HasKey(b, key) {
        var i :| 0 <= i < |b| && KeyOf(b[i]) == key;
        assert b[i] in a;
      }
    }
    forall key | key in AsMap(a) ensures AsMap(a)[key] == AsMap(b)[key] {
      MapKeys(a, key);
      var i :| 0 <= i < |a| && KeyOf(a[i]) == key;
      assert a[i] in b;
      var j :| 0 <= j < |b| && b[j] == a[i];
      MapValue(a, i);
      MapValue(b, j);
    }
  }

  lemma AppendModel<V>(order: seq<Handle<V>>, add: Handle<V>)
    requires DistinctKeys(order) && !HasKey(order, KeyOf(add))
    ensures DistinctKeys(order + [add])
    ensures AsMap(order + [add]) == AsMap(order)[KeyOf(add) := add]
  {
    var s := order + [add];
    assert s[..|s| - 1] == order;
    forall i, j | 0 <= i < j < |s| ensures KeyOf(s[i]) != KeyOf(s[j]) {}
  }

  lemma InsertModel<V>(order: seq<Handle<V>>, k: nat, add: Handle<V>)
    requires k <= |order| && DistinctKeys(order) && !HasKey(order, KeyOf(add))
    ensures DistinctKeys(InsertAt(order, k, add))
    ensures AsMap(InsertAt(order, k, add)) == AsMap(order)[KeyOf(add) := add]
  {
    AppendModel(order, add);
    assert order == order[..k] + order[k..];
    MapOfPermutation(order + [add], InsertAt(order, k, add));
  }

  lemma WithoutElements<V>(order: seq<Handle<V>>, k: nat)
    requires k < |order|
    ensures HBag(order) == HBag(Without(order, k)) + multiset{order[k]}
    ensures HBag(Without(order, k) + [order[k]]) == HBag(order)
    ensures DistinctKeys(order) ==> DistinctKeys(Without(order, k)) && !HasKey(Without(order, k), KeyOf(order[k]))
  {
    var w, e := Without(order, k), order[k];
    assert order == order[..k] + [e] + order[k + 1..];
    assert forall i :: 0 <= i < |w| ==> w[i] == order[if i < k then i else i + 1];
  }

  lemma WithoutModel<V>(order: seq<Handle<V>>, k: nat)
    requires k < |order| && DistinctKeys(order)
    ensures DistinctKeys(Without(order, k)) && !HasKey(Without(order, k), KeyOf(order[k]))
    ensures AsMap(Without(order, k)) == AsMap(order) - {KeyOf(order[k])}
  {
    var w, e := Without(order, k), order[k];
    WithoutElements(order, k);
    AppendModel(w, e);
    MapOfPermutation(w + [e], order);
    MapKeys(w, KeyOf(e));
    hide AsMap, DistinctKeys, HasKey, Without;
    assert AsMap(order) == AsMap(w)[KeyOf(e) := e];
  }
}

/** The table: `HASH_ADD`, `HASH_FIND`, `HASH_DELETE`, `HASH_REPLACE`, in-order adding and sorting. */
module UtHash {
  import opened Sequences
  import opened ListNodes
  import opened ListSort
  import opened StableSort
  import opened Masks
  import opened Chains
  import opened HashNodes
  import opened HashOrder
  import opened HashBuckets
  import opened HashExpand
  import opened HashModel

  const INITIAL_NUM_BUCKETS: nat := 32
  const INITIAL_NUM_BUCKETS_LOG2: nat := 5
  const BKT_CAPACITY_THRESH: nat := 10

  /** Handles carry the hash of their own key. */
  ghost predicate Hashed<V>(hash: string -> nat, order: seq<Handle<V>>) {
    forall i :: 0 <= i < |order| ==> order[i].hashv == hash(KeyOf(order[i]))
  }

  /** `add` is not in the table yet. */
  ghost predicate IsNew<V>(order: seq<Handle<V>>, add: Handle<V>) {
    add !in Handles(order) && add.node !in NodesOf(order)
  }

  /** A handle of the table sits in the bucket of its hash. */
  lemma FindInChains<V>(chains: seq<seq<Handle<V>>>, members: multiset<Handle<V>>, h: Handle<V>) returns (k: nat)
    requires |chains| > 0 && HBag(Flat(chains)) == members && h in members
    requires Arranged(chains)
    ensures HashToBkt(h.hashv, |chains|) < |chains|
    ensures k < |chains[HashToBkt(h.hashv, |chains|)]| && chains[HashToBkt(h.hashv, |chains|)][k] == h
  {
    assert h in HBag(Flat(chains));
    var b, i := FlatOrigin(chains, h);
    assert HashToBkt(chains[b][i].hashv, |chains|) == b;
    k := i;
  }

  lemma AppendElements<V>(hash: string -> nat, order: seq<Handle<V>>, add: Handle<V>)
    requires IsNew(order, add)
    ensures add !in Handles(order) && add.node !in NodesOf(order)
    ensures HBag(order + [add]) == HBag(order) + multiset{add} && Handles(order + [add]) == Handles(order) + {add}
    ensures Hashed(hash, order) && add.hashv == hash(KeyOf(add)) ==> Hashed(hash, order + [add])
  {}

  /** The position of the first node whose element compares greater than `e`, or the length. */
  function FirstAbove<T>(cmp: (T, T) -> int, s: seq<Node<T>>, e: T): (k: nat)
    ensures k <= |s| && (k < |s| ==> cmp(s[k].elt, e) > 0)
    ensures forall i :: 0 <= i < k ==> cmp(s[i].elt, e) <= 0
  {
    if s == [] || cmp(s[0].elt, e) > 0 then 0 else 1 + FirstAbove(cmp, s[1..], e)
  }

  lemma InsertBag<V>(order: seq<Handle<V>>, add: Handle<V>, k: nat)
    requires k <= |order|
    ensures HBag(InsertAt(order, k, add)) == HBag(order) + multiset{add}
  {
    assert order == order[..k] + order[k..];
    assert HBag(order) == HBag(order[..k]) + HBag(order[k..]);
    assert HBag(InsertAt(order, k, add)) == HBag(order[..k] + [add]) + HBag(order[k..]);
  }

  lemma BagHandles<V>(order: seq<Handle<V>>, t: seq<Handle<V>>, add: Handle<V>)
    requires HBag(t) == HBag(order) + multiset{add}
    ensures Handles(t) == Handles(order) + {add}
  {
    forall h ensures h in t <==> h in order || h == add {
      assert h in t <==> h in HBag(t);
      assert h in order <==> h in HBag(order);
    }
  }

  lemma BagHashed<V>(hash: string -> nat, order: seq<Handle<V>>, t: seq<Handle<V>>, add: Handle<V>)
    requires HBag(t) == HBag(order) + multiset{add} && Hashed(hash, order) && add.hashv == hash(KeyOf(add))
    ensures Hashed(hash, t)
  {
    forall i | 0 <= i < |t| ensures t[i] in order || t[i] == add {
      assert t[i] in HBag(t);
    }
  }

  lemma InsertElements<V>(hash: string -> nat, order: seq<Handle<V>>, add: Handle<V>, k: nat)
    requires k <= |order|
    ensures HBag(InsertAt(order, k, add)) == HBag(order) + multiset{add}
    ensures Handles(InsertAt(order, k, add)) == Handles(order) + {add}
    ensures Hashed(hash, order) && add.hashv == hash(KeyOf(add)) ==> Hashed(hash, InsertAt(order, k, add))
  {
    InsertBag(order, add, k);
    hide InsertAt;
    BagHandles(order, InsertAt(order, k, add), add);
    if Hashed(hash, order) && add.hashv == hash(KeyOf(add)) {
      BagHashed(hash, order, InsertAt(order, k, add), add);
    }
  }

  lemma CancelRight<T>(x: multiset<T>, f: multiset<T>, a: multiset<T>, c: multiset<T>)
    requires x + c == f + (a + c)
    ensures x == f + a
  {
    assert x == (x + c) - c;
    assert f + a == (f + (a + c)) - c;
  }

  lemma RemovedMembers<V>(chains: seq<seq<Handle<V>>>, b: nat, k: nat, members: multiset<Handle<V>>)
    requires b < |chains| && k < |chains[b]| && HBag(Flat(chains)) == members
    ensures HBag(Flat(chains[b := chains[b][..k] + chains[b][k + 1..]])) == members - multiset{chains[b][k]}
  {
    var c := chains[b][..k] + chains[b][k + 1..];
    assert chains[b] == chains[b][..k] + [chains[b][k]] + chains[b][k + 1..];
    assert HBag(chains[b]) == HBag(c) + multiset{chains[b][k]};
    FlatUpdate(chains, b, c);
    CancelRight(HBag(Flat(chains)), HBag(Flat(chains[b := c])), multiset{chains[b][k]}, HBag(c));
  }

  ghost predicate Covers<V>(members: multiset<Handle<V>>, hs: set<Handle<V>>) {
    forall h :: h in members ==> h in hs
  }

  lemma FewerHandles<V>(buckets: seq<Bucket<V>>, chains: seq<seq<Handle<V>>>, hs: set<Handle<V>>, fewer: set<Handle<V>>)
    requires ChainsOk(buckets, chains, hs) && Covers(HBag(Flat(chains)), fewer)
    ensures ChainsOk(buckets, chains, fewer)
  {
    forall b, i | 0 <= b < |chains| && 0 <= i < |chains[b]| ensures chains[b][i] in fewer {
      FlatMember(chains, b, i);
      assert chains[b][i] in HBag(Flat(chains));
    }
  }

  lemma WithoutHashed<V>(hash: string -> nat, order: seq<Handle<V>>, k: nat)
    requires k < |order| && Hashed(hash, order)
    ensures Hashed(hash, Without(order, k)) && order[k] in HBag(order)
    ensures HBag(Without(order, k)) == HBag(order) - multiset{order[k]}
    ensures Covers(HBag(Without(order, k)), Handles(Without(order, k)))
    ensures |order| == 1 ==> Without(order, k) == []
  {
    var w := Without(order, k);
    assert forall i :: 0 <= i < |w| ==> w[i] == order[if i < k then i else i + 1];
    WithoutElements(order, k);
  }

  lemma NewToFewer<V>(order: seq<Handle<V>>, k: nat, add: Handle<V>)
    requires k < |order| && IsNew(order, add)
    ensures IsNew(Without(order, k), add)
    ensures Handles(Without(order, k)) <= Handles(order)
    ensures Nodes(NodesOf(Without(order, k))) <= Nodes(NodesOf(order))
  {
    var w := Without(order, k);
    assert forall i :: 0 <= i < |w| ==> w[i] == order[if i < k then i else i + 1];
    forall i | 0 <= i < |w| ensures NodesOf(w)[i] in NodesOf(order) {
      assert NodesOf(w)[i] == NodesOf(order)[if i < k then i else i + 1];
    }
  }

  /** On a table with distinct keys, replacing is updating the map. */
  lemma ReplaceModel<V>(order: seq<Handle<V>>, rest: seq<Handle<V>>, replaced: Handle?<V>, k: nat,
                        pos: nat, add: Handle<V>)
    requires replaced == null ==> !HasKey(order, KeyOf(add)) && rest == order
    requires replaced != null ==>
               k < |order| && order[k] == replaced && KeyOf(replaced) == KeyOf(add) && rest == Without(order, k)
    requires pos <= |rest|
    ensures DistinctKeys(order) ==>
              DistinctKeys(InsertAt(rest, pos, add))
              && AsMap(InsertAt(rest, pos, add)) == AsMap(order)[KeyOf(add) := add]
    ensures pos == |rest| ==> InsertAt(rest, pos, add) == rest + [add]
  {
    if DistinctKeys(order) {
      if replaced != null { WithoutModel(order, k); }
      InsertModel(rest, pos, add);
    }
  }

  ghost function HandleOf<V>(order: seq<Handle<V>>, n: Node<Item<V>>): (h: Handle<V>)
    requires n in NodesOf(order)
    ensures h in order && h.node == n
  {
    var i :| 0 <= i < |order| && NodesOf(order)[i] == n;
    order[i]
  }

  ghost function Reordered<V>(order: seq<Handle<V>>, t: seq<Node<Item<V>>>): (r: seq<Handle<V>>)
    requires forall i :: 0 <= i < |t| ==> t[i] in NodesOf(order)
    ensures NodesOf(r) == t && forall i :: 0 <= i < |r| ==> r[i] in order
  {
    seq(|t|, i requires 0 <= i < |t| => HandleOf(order, t[i]))
  }

  lemma LastOnce<V>(s: seq<Handle<V>>)
    requires s != [] && NoDup(NodesOf(s))
    ensures NoDup(NodesOf(s[..|s| - 1])) && s[|s| - 1] !in s[..|s| - 1]
  {
    assert NodesOf(s[..|s| - 1]) == NodesOf(s)[..|s| - 1];
    assert forall i :: 0 <= i < |s| - 1 ==> NodesOf(s)[i] != NodesOf(s)[|s| - 1];
  }

  lemma {:induction false} DistinctOnce<V>(s: seq<Handle<V>>)
    requires NoDup(NodesOf(s))
    ensures forall h | h in HBag(s) :: HBag(s)[h] == 1
  {
    if s == [] {
    } else {
      var t, e := s[..|s| - 1], s[|s| - 1];
      LastOnce(s);
      DistinctOnce(t);
      assert s == t + [e] && HBag(s) == HBag(t) + multiset{e};
      assert HBag(t)[e] == 0;
    }
  }

  /** Handles on distinct nodes are told apart by their nodes. */
  lemma SameNodeSameHandle<V>(order: seq<Handle<V>>, g: Handle<V>, h: Handle<V>)
    requires NoDup(NodesOf(order)) && g in order && h in order && g.node == h.node
    ensures g == h
  {
    var i :| 0 <= i < |order| && order[i] == g;
    var j :| 0 <= j < |order| && order[j] == h;
    assert NodesOf(order)[i] == NodesOf(order)[j];
  }

  lemma NodesOccur<V>(order: seq<Handle<V>>, t: seq<Node<Item<V>>>)
    requires Bag(t) == Bag(NodesOf(order))
    ensures forall i :: 0 <= i < |t| ==> t[i] in NodesOf(order)
    ensures forall i :: 0 <= i < |order| ==> order[i].node in t
  {
    forall i | 0 <= i < |t| ensures t[i] in NodesOf(order) {
      assert t[i] in Bag(t);
    }
    forall i | 0 <= i < |order| ensures order[i].node in t {
      assert NodesOf(order)[i] in Bag(NodesOf(order));
    }
  }

  lemma ReorderMembers<V>(order: seq<Handle<V>>, t: seq<Node<Item<V>>>)
    requires Bag(t) == Bag(NodesOf(order)) && NoDup(NodesOf(order))
    ensures forall i :: 0 <= i < |t| ==> t[i] in NodesOf(order)
    ensures forall h :: h in order <==> h in Reordered(order, t)
  {
    NodesOccur(order, t);
    var r := Reordered(order, t);
    forall h | h in order ensures h in r {
      var j :| 0 <= j < |t| && t[j] == h.node;
      assert NodesOf(r)[j] == h.node;
      SameNodeSameHandle(order, r[j], h);
    }
  }

  lemma SameMembersOnce<V>(a: multiset<Handle<V>>, b: multiset<Handle<V>>)
    requires forall h | h in a :: a[h] == 1 && h in b
    requires forall h | h in b :: b[h] == 1 && h in a
    ensures a == b
  {}

  lemma ReorderElements<V>(hash: string -> nat, order: seq<Handle<V>>, t: seq<Node<Item<V>>>)
    requires NoDup(t) && Bag(t) == Bag(NodesOf(order)) && Hashed(hash, order)
    ensures forall i :: 0 <= i < |t| ==> t[i] in NodesOf(order)
    ensures HBag(Reordered(order, t)) == HBag(order) && Hashed(hash, Reordered(order, t))
    ensures Handles(Reordered(order, t)) == Handles(order)
  {
    NoDupOnce(t);
    OnceNoDup(NodesOf(order));
    ReorderMembers(order, t);
    var r := Reordered(order, t);
    DistinctOnce(r);
    DistinctOnce(order);
    assert forall h :: h in HBag(order) <==> h in order;
    assert forall h :: h in HBag(r) <==> h in r;
    hide Reordered, NoDup, HandleOf, NodesOf;
    SameMembersOnce(HBag(r), HBag(order));
  }

  lemma EmptyChains<V>(buckets: seq<Bucket<V>>, chains: seq<seq<Handle<V>>>)
    requires |buckets| == |chains| > 0
    requires forall b :: 0 <= b < |chains| ==> chains[b] == [] && buckets[b] == Bucket(null, 0, 0)
    ensures ChainsOk(buckets, chains, {}) && HBag(Flat(chains)) == multiset{}
  {
    FlatEmpty(chains);
  }

  lemma PushedMembers<V>(chains: seq<seq<Handle<V>>>, b: nat, add: Handle<V>)
    requires b < |chains|
    ensures HBag(Flat(chains[b := [add] + chains[b]])) == HBag(Flat(chains)) + multiset{add}
  {
    FlatUpdate(chains, b, [add] + chains[b]);
    CancelRight(HBag(Flat(chains[b := [add] + chains[b]])), HBag(Flat(chains)), multiset{add}, HBag(chains[b]));
  }

  lemma MoreHandles<V>(buckets: seq<Bucket<V>>, chains: seq<seq<Handle<V>>>, hs: set<Handle<V>>, more: set<Handle<V>>)
    requires ChainsOk(buckets, chains, hs) && hs <= more
    ensures ChainsOk(buckets, chains, more)
  {}

  class HashTable<V(!new)> {
    const hash: string -> nat
    var head: Node?<Item<V>>
    var tail: Node?<Item<V>>
    var buckets: array<Bucket<V>>
    var numBuckets: nat
    var log2NumBuckets: nat
    var numItems: nat
    var idealChainMaxlen: nat
    var nonidealItems: nat
    var ineffExpands: nat
    var noexpand: bool

    ghost var order: seq<Handle<V>>
    ghost var chains: seq<seq<Handle<V>>>

    /** The bucket half of the invariant: what `HASH_FSCK` checks of the chains and counts, and that the
        chains together hold exactly `members`. */
    ghost predicate TableOk(members: multiset<Handle<V>>, hs: set<Handle<V>>)
      reads this`buckets, this`numBuckets, this`log2NumBuckets, this`numItems, this`chains, buckets, hs
    {
      && buckets.Length == numBuckets == |chains| == Pow2(log2NumBuckets)
      && ChainsOk(buckets[..], chains, hs)
      && HBag(Flat(chains)) == members && numItems == |members|
    }

    /** The whole invariant: the application-order list is doubly linked from `head` to `tail`, and the
        buckets hold the same elements. */
    ghost predicate Valid()
      reads this, buckets, Handles(order), Nodes(NodesOf(order))
    {
      && Hashed(hash, order)
      && HList(head, tail, NodesOf(order))
      && (head != null ==> TableOk(HBag(order), Handles(order)))
    }

    constructor (hash: string -> nat)
      ensures Valid() && order == [] && this.hash == hash
    {
      this.hash := hash;
      head, tail := null, null;
      buckets := new Bucket<V>[0];
      numBuckets, log2NumBuckets, numItems := 0, 0, 0;
      idealChainMaxlen, nonidealItems, ineffExpands, noexpand := 0, 0, 0, false;
      order, chains := [], [];
    }

    /** `HASH_FIND`. */
    method Find(key: string) returns (out: Handle?<V>)
      requires Valid()
      ensures out != null ==> out in order && KeyOf(out) == key
      ensures out == null ==> !HasKey(order, key)
      ensures out != null <==> HasKey(order, key)
    {
      out := null;
      if head != null {
        out := FindByHash(key, hash(key));
      }
    }

    /** `HASH_FIND_BYHASHVALUE` on a table that exists, with the key's own hash. */
    method FindByHash(key: string, hashval: nat) returns (out: Handle?<V>)
      requires Valid() && head != null && hashval == hash(key)
      ensures out != null ==> out in order && KeyOf(out) == key
      ensures out == null ==> !HasKey(order, key)
    {
      var b := HashToBkt(hashval, numBuckets);
      BucketInRange(hashval, numBuckets);
      ghost var chain := chains[b];
      assert ChainOk(buckets[..][b], chain);
      out := buckets[b].hhHead;
      ghost var k := 0;
      while out != null
        invariant 0 <= k <= |chain| && out == (if k < |chain| then chain[k] else null)
        invariant forall i :: 0 <= i < k ==> KeyOf(chain[i]) != key
        decreases |chain| - k
      {
        if out.hashv == hashval && |KeyOf(out)| == |key| && KeyOf(out) == key {
          break;
        }
        assert out == chain[k] && out in Handles(chain);
        assert out in Handles(order);
        assert out.hashv == hash(KeyOf(out));
        out := out.hhNext;
        k := k + 1;
      }
      if out != null {
        assert out in Handles(chain);
      } else {
        AllWaiting(buckets[..], chains, Handles(order));
        forall i | 0 <= i < |order| ensures KeyOf(order[i]) != key {
          assert order[i] in HBag(order);
          var j := FindInChains(chains, HBag(order), order[i]);
          assert order[i].hashv == hashval ==> chain[j] == order[i];
        }
      }
    }

    /** `HASH_EXPAND_BUCKETS`: twice as many buckets with the same elements. */
    method ExpandBuckets(ghost members: multiset<Handle<V>>, ghost hs: set<Handle<V>>)
      requires TableOk(members, hs)
      modifies this, hs
      ensures TableOk(members, hs) && fresh(buckets)
      ensures head == old(head) && tail == old(tail) && order == old(order)
      ensures log2NumBuckets == old(log2NumBuckets) + 1 && numBuckets == 2 * old(numBuckets)
      ensures Redistributed(old(chains), chains, |old(chains)|, 0)
      ensures IsCeiling(idealChainMaxlen, numItems, numBuckets)
      ensures nonidealItems == NonIdeal(chains, idealChainMaxlen)
      ensures Multiplied(buckets[..], chains, idealChainMaxlen)
      ensures ineffExpands == if nonidealItems > numItems / 2 then old(ineffExpands) + 1 else 0
      ensures noexpand == (old(noexpand) || ineffExpands > 1)
    {
      hide *;
      TableParts(members, hs);
      var ideal := IdealMaxLen(numItems, numBuckets, log2NumBuckets);
      IdealIsCeiling(numItems, log2NumBuckets);
      NextPow2(log2NumBuckets);
      var newBuckets, nonideal;
      ghost var newChains;
      newBuckets, nonideal, newChains := RebuildChains(ideal, members, hs);
      InstallBuckets(newBuckets, ideal, nonideal, newChains);
      TableFromParts(members, hs);
    }

    /** The redistribution of an expansion, before the table's fields change. */
    method RebuildChains(ideal: nat, ghost members: multiset<Handle<V>>, ghost hs: set<Handle<V>>)
      returns (newBuckets: array<Bucket<V>>, nonideal: nat, ghost newChains: seq<seq<Handle<V>>>)
      requires TableOk(members, hs)
      modifies hs
      ensures fresh(newBuckets) && newBuckets.Length == |newChains| == 2 * numBuckets
      ensures ChainsOk(newBuckets[..], newChains, hs) && HBag(Flat(newChains)) == members
      ensures Redistributed(chains, newChains, |chains|, 0) && nonideal == NonIdeal(newChains, ideal)
      ensures Multiplied(newBuckets[..], newChains, ideal)
    {
      hide *;
      TableParts(members, hs);
      AllWaiting(buckets[..], chains, hs);
      ghost var moved;
      newBuckets, nonideal, newChains, moved := MoveAll(buckets, ideal, chains, log2NumBuckets, hs);
      RedistributionKeeps(chains, newChains, log2NumBuckets);
      MoreHandles(newBuckets[..], newChains, moved, hs);
    }

    /** The field updates that end an expansion. */
    method InstallBuckets(newBuckets: array<Bucket<V>>, ideal: nat, nonideal: nat, ghost newChains: seq<seq<Handle<V>>>)
      modifies this
      ensures buckets == newBuckets && chains == newChains && idealChainMaxlen == ideal && nonidealItems == nonideal
      ensures log2NumBuckets == old(log2NumBuckets) + 1 && numBuckets == 2 * old(numBuckets)
      ensures ineffExpands == if nonideal > numItems / 2 then old(ineffExpands) + 1 else 0
      ensures noexpand == (old(noexpand) || ineffExpands > 1)
      ensures head == old(head) && tail == old(tail) && order == old(order) && numItems == old(numItems)
    {
      idealChainMaxlen, nonidealItems := ideal, nonideal;
      buckets, chains := newBuckets, newChains;
      numBuckets := numBuckets * 2;
      log2NumBuckets := log2NumBuckets + 1;
      ShrDivides(numItems, 1);
      NextPow2(0);
      ineffExpands := if nonidealItems > Shr(numItems, 1) then ineffExpands + 1 else 0;
      if ineffExpands > 1 {
        noexpand := true;
      }
    }

    /** A bucket counts its chain. */
    lemma CountIs(hashv: nat, hs: set<Handle<V>>, members: multiset<Handle<V>>)
      requires TableOk(members, hs)
      ensures HashToBkt(hashv, numBuckets) < numBuckets == |chains| == buckets.Length
      ensures var b := HashToBkt(hashv, numBuckets); buckets[b].count == |chains[b]|
    {
      BucketInRange(hashv, numBuckets);
      var b := HashToBkt(hashv, numBuckets);
      assert ChainOk(buckets[..][b], chains[b]);
    }

    lemma TableParts(members: multiset<Handle<V>>, hs: set<Handle<V>>)
      requires TableOk(members, hs)
      ensures buckets.Length == numBuckets == |chains| == Pow2(log2NumBuckets) && ChainsOk(buckets[..], chains, hs)
      ensures HBag(Flat(chains)) == members && numItems == |members|
    {}

    lemma TableFromParts(members: multiset<Handle<V>>, hs: set<Handle<V>>)
      requires buckets.Length == numBuckets == |chains| == Pow2(log2NumBuckets) && ChainsOk(buckets[..], chains, hs)
      requires HBag(Flat(chains)) == members && numItems == |members|
      ensures TableOk(members, hs)
    {}

    /** Adding an element of this hash makes its chain ten times as long as the bucket's multiple and one say,
        and the table may still expand. */
    ghost predicate Fills(hashv: nat)
      reads this, buckets
    {
      && numBuckets == |chains| == buckets.Length > 0 && HashToBkt(hashv, numBuckets) < numBuckets
      && var b := HashToBkt(hashv, numBuckets);
      |chains[b]| + 1 >= 10 * (buckets[b].expandMult + 1) && !noexpand
    }

    /** The element comes in front of its chain. */
    method InsertInTable(add: Handle<V>, ghost members: multiset<Handle<V>>, ghost hs: set<Handle<V>>) returns (b: nat)
      requires TableOk(members, hs) && add !in hs
      modifies this`numItems, this`chains, buckets, hs, add
      ensures TableOk(members + multiset{add}, hs + {add})
      ensures b == HashToBkt(add.hashv, numBuckets) < numBuckets == buckets.Length == |chains|
      ensures |old(chains)| == |chains| && chains[b] == [add] + old(chains)[b]
      ensures buckets[b].expandMult == old(buckets[..])[b].expandMult && buckets[b].count == |chains[b]|
    {
      hide ChainsOk, HashToBkt, Flat, Pow2, ChainOk;
      numItems := numItems + 1;
      b := AddToChain(buckets, add, chains, hs);
      PushedMembers(chains, b, add);
      chains := chains[b := [add] + chains[b]];
      assert TableOk(members + multiset{add}, hs + {add});
      CountIs(add.hashv, hs + {add}, members + multiset{add});
    }

    /** `HASH_ADD_TO_TABLE`. */
    method AddToTable(add: Handle<V>, ghost members: multiset<Handle<V>>, ghost hs: set<Handle<V>>)
      requires TableOk(members, hs) && add !in hs
      modifies this, buckets, hs, add
      ensures TableOk(members + multiset{add}, hs + {add})
      ensures head == old(head) && tail == old(tail) && order == old(order)
      ensures if old(Fills(add.hashv)) then fresh(buckets) && numBuckets == 2 * old(numBuckets)
              else buckets == old(buckets) && numBuckets == old(numBuckets) && noexpand == old(noexpand)
    {
      hide TableOk, HashToBkt, Redistributed, NonIdeal, Multiplied;
      var b := InsertInTable(add, members, hs);
      if buckets[b].count >= (buckets[b].expandMult + 1) * BKT_CAPACITY_THRESH && !noexpand {
        ExpandBuckets(members + multiset{add}, hs + {add});
      }
    }

    /** The field assignments of `HASH_MAKE_TABLE`. */
    method ResetTable(newBuckets: array<Bucket<V>>, first: Handle<V>)
      requires newBuckets.Length == INITIAL_NUM_BUCKETS
      modifies this
      ensures head == tail == first.node && order == [first]
      ensures buckets == newBuckets && numBuckets == INITIAL_NUM_BUCKETS && log2NumBuckets == INITIAL_NUM_BUCKETS_LOG2
      ensures numItems == idealChainMaxlen == nonidealItems == ineffExpands == 0 && !noexpand
      ensures chains == seq(INITIAL_NUM_BUCKETS, _ => [])
    {
      head, tail, order := first.node, first.node, [first];
      buckets, numBuckets, log2NumBuckets := newBuckets, INITIAL_NUM_BUCKETS, INITIAL_NUM_BUCKETS_LOG2;
      numItems, idealChainMaxlen, nonidealItems, ineffExpands, noexpand := 0, 0, 0, 0, false;
      chains := seq(INITIAL_NUM_BUCKETS, _ => []);
    }

    /** `HASH_MAKE_TABLE`: the first element alone on the list, and empty buckets. */
    method MakeTable(add: Handle<V>)
      requires order == []
      modifies this, add.node
      ensures HList(head, tail, NodesOf(order)) && head != null && order == old(order) + [add]
      ensures TableOk(HBag(old(order)), Handles(old(order))) && fresh(buckets)
      ensures numBuckets == 32 && forall hashv :: !Fills(hashv)
    {
      add.node.next, add.node.prev := null, null;
      var zero := Bucket<V>.Bucket(null, 0, 0);
      var newBuckets := new Bucket<V>[INITIAL_NUM_BUCKETS](_ => zero);
      ResetTable(newBuckets, add);
      EmptyChains(buckets[..], chains);
      hide ChainsOk, Flat;
      assert Pow2(INITIAL_NUM_BUCKETS_LOG2) == INITIAL_NUM_BUCKETS;
    }

    lemma ValidParts()
      requires Valid()
      ensures Hashed(hash, order) && HList(head, tail, NodesOf(order))
      ensures head != null <==> order != []
      ensures head != null ==> TableOk(HBag(order), Handles(order)) && tail != null
    {}

    lemma ValidEmpty()
      requires head == null && order == []
      ensures Valid()
    {}

    lemma ValidFromParts()
      requires Hashed(hash, order) && HList(head, tail, NodesOf(order)) && TableOk(HBag(order), Handles(order))
      ensures Valid()
    {}

    /** The list half of adding at the end. */
    method LinkLast(add: Handle<V>)
      requires HList(head, tail, NodesOf(order)) && head != null && add.node !in NodesOf(order)
      requires TableOk(HBag(order), Handles(order))
      modifies this`tail, this`order, Nodes(NodesOf(order)), add.node
      ensures HList(head, tail, NodesOf(order)) && order == old(order) + [add]
      ensures TableOk(HBag(old(order)), Handles(old(order)))
    {
      hide TableOk;
      ghost var order0 := order;
      tail := AppendList(head, tail, add.node, NodesOf(order));
      order := order + [add];
      assert NodesOf(order) == NodesOf(order0) + [add.node];
    }

    /** `HASH_ADD`: the element goes to the end of the application order. */
    method Add(add: Handle<V>)
      requires Valid() && IsNew(order, add) && add.hashv == hash(KeyOf(add))
      modifies this, buckets, Handles(order), Nodes(NodesOf(order)), add, add.node
      ensures Valid() && order == old(order) + [add]
      ensures buckets == old(buckets) || fresh(buckets)
      ensures numBuckets == if old(head) == null then 32 else if old(Fills(add.hashv)) then 2 * old(numBuckets)
                            else old(numBuckets)
    {
      hide *;
      ghost var members, hs := HBag(order), Handles(order);
      AppendElements(hash, order, add);
      ValidParts();
      LinkAdded(add);
      FinishAdd(add, members, hs);
    }

    /** The bucket half of adding an element that is on the list already. */
    method FinishAdd(add: Handle<V>, ghost members: multiset<Handle<V>>, ghost hs: set<Handle<V>>)
      requires TableOk(members, hs) && add !in hs
      requires Hashed(hash, order) && HList(head, tail, NodesOf(order))
      requires HBag(order) == members + multiset{add} && Handles(order) == hs + {add}
      modifies this, buckets, hs, add
      ensures Valid() && order == old(order)
      ensures buckets == old(buckets) || fresh(buckets)
      ensures numBuckets == if old(Fills(add.hashv)) then 2 * old(numBuckets) else old(numBuckets)
    {
      hide *;
      AddToTable(add, members, hs);
      ValidFromParts();
    }

    /** The list half of adding, before the element is in a bucket. */
    method LinkAdded(add: Handle<V>)
      requires HList(head, tail, NodesOf(order)) && add.node !in NodesOf(order)
      requires head != null ==> TableOk(HBag(order), Handles(order))
      modifies this, Nodes(NodesOf(order)), add.node
      ensures HList(head, tail, NodesOf(order)) && order == old(order) + [add]
      ensures TableOk(HBag(old(order)), Handles(old(order)))
      ensures buckets == old(buckets) || fresh(buckets)
      ensures if old(head) == null then numBuckets == 32 && !Fills(add.hashv)
              else numBuckets == old(numBuckets) && Fills(add.hashv) == old(Fills(add.hashv))
    {
      if head == null {
        MakeTable(add);
      } else {
        LinkLast(add);
      }
    }

    /** Where in-order adding puts an element: before the first one that compares greater. */
    method FindAbove(cmp: (Item<V>, Item<V>) -> int, add: Item<V>) returns (iter: Node?<Item<V>>, ghost k: nat)
      requires HList(head, tail, NodesOf(order)) && head != null
      ensures k == FirstAbove(cmp, NodesOf(order), add)
      ensures iter == if k < |order| then order[k].node else null
    {
      ghost var s := NodesOf(order);
      iter, k := head, 0;
      while iter != null
        invariant 0 <= k <= |s| && iter == (if k < |s| then s[k] else null)
        invariant FirstAbove(cmp, s, add) == k + FirstAbove(cmp, s[k..], add)
        decreases |s| - k
      {
        if cmp(iter.elt, add) > 0 { break; }
        assert s[k].next == if k + 1 < |s| then s[k + 1] else null;
        assert s[k..][0] == iter && s[k..][1..] == s[k + 1..];
        iter := iter.next;
        k := k + 1;
      }
    }

    /** The list half of in-order adding before an element. */
    method LinkBefore(iter: Node<Item<V>>, add: Handle<V>, ghost k: nat)
      requires HList(head, tail, NodesOf(order)) && k < |order| && order[k].node == iter && add.node !in NodesOf(order)
      requires TableOk(HBag(order), Handles(order))
      modifies this`head, this`order, Nodes(NodesOf(order)), add.node
      ensures HList(head, tail, NodesOf(order)) && order == InsertAt(old(order), k, add)
      ensures TableOk(HBag(old(order)), Handles(old(order)))
    {
      hide TableOk;
      ghost var order0, members, hs := order, HBag(order), Handles(order);
      head := InsertBefore(head, tail, iter, add.node, NodesOf(order), k);
      order := InsertAt(order, k, add);
      assert TableOk(members, hs);
      assert NodesOf(order) == NodesOf(order0)[..k] + [add.node] + NodesOf(order0)[k..];
    }

    lemma EmptyList()
      requires HList(head, tail, NodesOf(order)) && head == null
      ensures order == []
    {}

    method LinkInorder(add: Handle<V>, cmp: (Item<V>, Item<V>) -> int) returns (ghost k: nat)
      requires HList(head, tail, NodesOf(order)) && add.node !in NodesOf(order)
      requires head != null ==> TableOk(HBag(order), Handles(order))
      modifies this, Nodes(NodesOf(order)), add.node
      ensures k == FirstAbove(cmp, NodesOf(old(order)), add.node.elt) <= |old(order)|
      ensures HList(head, tail, NodesOf(order)) && order == InsertAt(old(order), k, add)
      ensures TableOk(HBag(old(order)), Handles(old(order)))
      ensures buckets == old(buckets) || fresh(buckets)
      ensures if old(head) == null then numBuckets == 32 && !Fills(add.hashv)
              else numBuckets == old(numBuckets) && Fills(add.hashv) == old(Fills(add.hashv))
    {
      hide HList, TableOk, FirstAbove;
      if head == null {
        k := 0;
        EmptyList();
        MakeTable(add);
      } else {
        var iter;
        iter, k := FindAbove(cmp, add.node.elt);
        if iter != null {
          LinkBefore(iter, add, k);
        } else {
          LinkLast(add);
        }
      }
    }

    /** `HASH_ADD_INORDER`. */
    method AddInorder(add: Handle<V>, cmp: (Item<V>, Item<V>) -> int) returns (ghost k: nat)
      requires Valid() && IsNew(order, add) && add.hashv == hash(KeyOf(add))
      modifies this, buckets, Handles(order), Nodes(NodesOf(order)), add, add.node
      ensures k == FirstAbove(cmp, NodesOf(old(order)), add.node.elt) <= |old(order)|
      ensures Valid() && order == InsertAt(old(order), k, add)
      ensures buckets == old(buckets) || fresh(buckets)
      ensures numBuckets == if old(head) == null then 32 else if old(Fills(add.hashv)) then 2 * old(numBuckets)
                            else old(numBuckets)
    {
      ghost var order0, members, hs := order, HBag(order), Handles(order);
      ValidParts();
      assert add !in hs && add.node !in NodesOf(order);
      hide *;
      k := LinkInorder(add, cmp);
      InsertElements(hash, order0, add, k);
      FinishAdd(add, members, hs);
    }

    /** The bucket half of `HASH_DELETE_HH`. */
    method RemoveFromTable(del: Handle<V>, ghost members: multiset<Handle<V>>, ghost hs: set<Handle<V>>,
                           ghost rest: multiset<Handle<V>>, ghost fewer: set<Handle<V>>)
      requires TableOk(members, hs) && del in members
      requires rest == members - multiset{del} && Covers(rest, fewer)
      modifies this`numItems, this`chains, buckets, hs
      ensures TableOk(rest, fewer)
    {
      hide *;
      TableParts(members, hs);
      AllWaiting(buckets[..], chains, hs);
      ghost var k := FindInChains(chains, members, del);
      var b := RemoveFromChain(buckets, del, chains, hs, k);
      RemovedMembers(chains, b, k, members);
      ghost var newChains := chains[b := chains[b][..k] + chains[b][k + 1..]];
      FewerHandles(buckets[..], newChains, hs, fewer);
      chains, numItems := newChains, numItems - 1;
      TableFromParts(rest, fewer);
    }

    /** The list half of `HASH_DELETE_HH` when other elements stay. */
    method UnlinkNode(del: Handle<V>, ghost k: nat)
      requires HList(head, tail, NodesOf(order)) && |order| > 1 && k < |order| && order[k] == del
      requires TableOk(HBag(order), Handles(order))
      modifies this`head, this`tail, this`order, Nodes(NodesOf(order))
      ensures HList(head, tail, NodesOf(order)) && order == Without(old(order), k)
      ensures TableOk(HBag(old(order)), Handles(old(order)))
    {
      hide TableOk;
      ghost var order0, members, hs := order, HBag(order), Handles(order);
      head, tail := UnlinkOrder(head, tail, del.node, NodesOf(order), k);
      order := Without(order, k);
      assert TableOk(members, hs);
      assert NodesOf(order) == NodesOf(order0)[..k] + NodesOf(order0)[k + 1..];
    }

    lemma LoneNode(k: nat)
      requires HList(head, tail, NodesOf(order)) && k < |order|
      ensures order[k].node.prev == null && order[k].node.next == null <==> |order| == 1
    {
      var s := NodesOf(order);
      if k > 0 { assert s[k].prev == s[k - 1]; }
      if k + 1 < |s| { assert s[k].next == s[k + 1]; }
    }

    /** The bucket half of deleting an element that is off the list already. */
    method FinishDelete(del: Handle<V>, ghost members: multiset<Handle<V>>, ghost hs: set<Handle<V>>)
      requires TableOk(members, hs) && del in members
      requires Hashed(hash, order) && HList(head, tail, NodesOf(order))
      requires HBag(order) == members - multiset{del} && Covers(HBag(order), Handles(order))
      modifies this, buckets, hs
      ensures Valid() && order == old(order) && buckets == old(buckets)
    {
      hide *;
      RemoveFromTable(del, members, hs, HBag(order), Handles(order));
      ValidFromParts();
    }

    /** `HASH_DELETE_HH` when other elements stay. */
    method DeleteOne(del: Handle<V>, ghost k: nat)
      requires Hashed(hash, order) && HList(head, tail, NodesOf(order)) && TableOk(HBag(order), Handles(order))
      requires k < |order| && order[k] == del && |order| > 1
      modifies this, buckets, Handles(order), Nodes(NodesOf(order))
      ensures Valid() && order == Without(old(order), k) && buckets == old(buckets)
    {
      hide *;
      ghost var members, hs := HBag(order), Handles(order);
      WithoutHashed(hash, order, k);
      UnlinkNode(del, k);
      FinishDelete(del, members, hs);
    }

    /** `HASH_DELETE_HH`: deleting the only element frees the table. */
    method Delete(del: Handle<V>, ghost k: nat)
      requires Valid() && k < |order| && order[k] == del
      modifies this, buckets, Handles(order), Nodes(NodesOf(order))
      ensures Valid() && order == Without(old(order), k) && buckets == old(buckets)
    {
      hide *;
      ValidParts();
      LoneNode(k);
      WithoutHashed(hash, order, k);
      if del.node.prev == null && del.node.next == null {
        head, order := null, [];
        ValidEmpty();
      } else {
        DeleteOne(del, k);
      }
    }

    /** `HASH_REPLACE`: an element with the key of `add` is taken out first, if there is one. */
    method Replace(add: Handle<V>) returns (replaced: Handle?<V>, ghost k: nat)
      requires Valid() && IsNew(order, add) && add.hashv == hash(KeyOf(add))
      modifies this, buckets, Handles(order), Nodes(NodesOf(order)), add, add.node
      ensures Valid() && (buckets == old(buckets) || fresh(buckets))
      ensures replaced == null <==> !HasKey(old(order), KeyOf(add))
      ensures replaced == null ==> order == old(order) + [add]
      ensures replaced != null ==>
                k < |old(order)| && old(order)[k] == replaced && KeyOf(replaced) == KeyOf(add) &&
                order == Without(old(order), k) + [add]
      ensures DistinctKeys(old(order)) ==>
                DistinctKeys(order) && AsMap(order) == AsMap(old(order))[KeyOf(add) := add]
    {
      ghost var order0 := order;
      replaced := Find(KeyOf(add));
      k := 0;
      if replaced != null {
        k :| k < |order| && order[k] == replaced;
        Delete(replaced, k);
        NewToFewer(order0, k, add);
      }
      ghost var rest := order;
      hide InsertAt;
      Add(add);
      ReplaceModel(order0, rest, replaced, k, |rest|, add);
    }

    /** `HASH_REPLACE_INORDER`. */
    method ReplaceInorder(add: Handle<V>, cmp: (Item<V>, Item<V>) -> int)
      returns (replaced: Handle?<V>, ghost k: nat, ghost pos: nat)
      requires Valid() && IsNew(order, add) && add.hashv == hash(KeyOf(add))
      modifies this, buckets, Handles(order), Nodes(NodesOf(order)), add, add.node
      ensures Valid() && (buckets == old(buckets) || fresh(buckets))
      ensures replaced == null <==> !HasKey(old(order), KeyOf(add))
      ensures replaced != null ==> k < |old(order)| && old(order)[k] == replaced && KeyOf(replaced) == KeyOf(add)
      ensures var rest := if replaced == null then old(order) else Without(old(order), k);
              pos == FirstAbove(cmp, NodesOf(rest), add.node.elt) && order == InsertAt(rest, pos, add)
      ensures DistinctKeys(old(order)) ==>
                DistinctKeys(order) && AsMap(order) == AsMap(old(order))[KeyOf(add) := add]
    {
      ghost var order0 := order;
      replaced := Find(KeyOf(add));
      k := 0;
      if replaced != null {
        k :| k < |order| && order[k] == replaced;
        Delete(replaced, k);
        NewToFewer(order0, k, add);
      }
      ghost var rest := order;
      pos := AddInorder(add, cmp);
      ReplaceModel(order0, rest, replaced, k, pos, add);
    }

    /** `HASH_SRT`: the application order becomes its stable sort, and nothing else changes. */
    method Sort(cmp: (Item<V>, Item<V>) -> int)
      requires Valid() && Preorder(cmp)
      modifies this`head, this`tail, this`order, Nodes(NodesOf(order))
      ensures Valid() && HBag(order) == HBag(old(order))
      ensures StableSortOf(Elt, cmp, NodesOf(old(order)), NodesOf(order))
    {
      ghost var order0, s := order, NodesOf(order);
      ValidParts();
      if head != null {
        ghost var t := SortNodes(cmp);
        FinishSort(t);
      }
    }

    method SortNodes(cmp: (Item<V>, Item<V>) -> int) returns (ghost t: seq<Node<Item<V>>>)
      requires HList(head, tail, NodesOf(order)) && head != null && tail != null && order != [] && Preorder(cmp)
      requires TableOk(HBag(order), Handles(order))
      modifies this`head, this`tail, Nodes(NodesOf(order))
      ensures HList(head, tail, t) && head != null && Bag(t) == Bag(NodesOf(order))
      ensures StableSortOf(Elt, cmp, NodesOf(order), t)
      ensures TableOk(HBag(order), Handles(order))
    {
      hide TableOk, HList, Preorder, StableSortOf;
      head, tail, t := SortOrder(head, tail, cmp, NodesOf(order));
    }

    ghost method FinishSort(t: seq<Node<Item<V>>>)
      requires HList(head, tail, t) && head != null && TableOk(HBag(order), Handles(order))
      requires Bag(t) == Bag(NodesOf(order)) && Hashed(hash, order)
      modifies this`order
      ensures Valid() && HBag(order) == HBag(old(order)) && NodesOf(order) == t
    {
      hide TableOk;
      ReorderElements(hash, order, t);
      order := Reordered(order, t);
    }
  }

  /** In-order adding keeps a sorted list sorted, after the elements it is equivalent to. */
  lemma InorderKeepsSorted<T(!new)>(cmp: (T, T) -> int, s: seq<Node<T>>, add: Node<T>)
    requires Preorder(cmp) && Sorted(Elt, cmp, s)
    ensures Sorted(Elt, cmp, InsertAt(s, FirstAbove(cmp, s, add.elt), add))
    ensures forall i :: 0 <= i < |s| && Equivalent(cmp, s[i].elt, add.elt) ==> i < FirstAbove(cmp, s, add.elt)
  {
    var k := FirstAbove(cmp, s, add.elt);
    var e := add.elt;
    forall i | k <= i < |s| ensures !Equivalent(cmp, Elt(s[i]), e) {
      assert i == k || cmp(Elt(s[k]), Elt(s[i])) <= 0;
    }
    forall i | k <= i < |s| ensures cmp(e, Elt(s[i])) <= 0 {
      assert cmp(Elt(s[k]), e) > 0 && cmp(e, Elt(s[k])) <= 0;
      assert i == k || cmp(Elt(s[k]), Elt(s[i])) <= 0;
    }
    SortedInsert(Elt, cmp, s, k, add);
  }
}
