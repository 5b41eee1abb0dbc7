/** JSON values as trees, and the part of src/external/yyjson.h that works on them by key and by path. */
module JsonValues {
  datatype Option<T> = None | Some(value: T)

  datatype Json =
    | Null
    | Bool(b: bool)
    | Num(bits: int)
    | Str(text: string)
    | Arr(elems: seq<Json>)
    | Obj(pairs: seq<Pair>)
  datatype Pair = Pair(key: string, val: Json)

  ghost predicate DistinctKeys(pairs: seq<Pair>) {
    forall i, j :: 0 <= i < j < |pairs| ==> pairs[i].key != pairs[j].key
  }

  /** The value of the first pair with this key. */
  function Get(pairs: seq<Pair>, key: string): Option<Json> {
    if pairs == [] then None
    else if pairs[0].key == key then Some(pairs[0].val)
    else Get(pairs[1..], key)
  }

  /** The pairs with other keys. */
  function Others(pairs: seq<Pair>, key: string): seq<Pair> {
    if pairs == [] then []
    else (if pairs[0].key == key then [] else [pairs[0]]) + Others(pairs[1..], key)
  }

  /** `yyjson_mut_obj_put` on a tree: every pair of the key goes, the new pair comes last. */
  function Put(pairs: seq<Pair>, key: string, val: Json): seq<Pair> {
    Others(pairs, key) + [Pair(key, val)]
  }

  lemma {:induction false} GetAppend(pairs: seq<Pair>, more: seq<Pair>, key: string)
    ensures Get(pairs + more, key) == if Get(pairs, key).Some? then Get(pairs, key) else Get(more, key)
  {
    if pairs == [] {
      assert pairs + more == more;
    } else {
      assert (pairs + more)[1..] == pairs[1..] + more;
      GetAppend(pairs[1..], more, key);
    }
  }

  lemma {:induction false} GetOthers(pairs: seq<Pair>, key: string, other: string)
    ensures Get(Others(pairs, key), other) == if other == key then None else Get(pairs, other)
  {
    if pairs == [] {
    } else {
      GetOthers(pairs[1..], key, other);
      if pairs[0].key == key {
        assert [] + Others(pairs[1..], key) == Others(pairs[1..], key);
      } else {
        assert ([pairs[0]] + Others(pairs[1..], key))[1..] == Others(pairs[1..], key);
      }
    }
  }

  /** Putting updates a map. */
  lemma GetPut(pairs: seq<Pair>, key: string, val: Json, other: string)
    ensures Get(Put(pairs, key, val), other) == if other == key then Some(val) else Get(pairs, other)
  {
    GetOthers(pairs, key, other);
    GetAppend(Others(pairs, key), [Pair(key, val)], other);
  }

  /** Every pair that is left was there, and has another key. */
  lemma {:induction false} OthersFrom(pairs: seq<Pair>, key: string, i: nat) returns (j: nat)
    requires i < |Others(pairs, key)|
    ensures j < |pairs| && Others(pairs, key)[i] == pairs[j] && pairs[j].key != key && j >= i
  {
    if pairs[0].key == key {
      assert Others(pairs, key) == Others(pairs[1..], key);
      j := OthersFrom(pairs[1..], key, i);
      j := j + 1;
    } else if i == 0 {
      j := 0;
    } else {
      assert Others(pairs, key)[i] == Others(pairs[1..], key)[i - 1];
      j := OthersFrom(pairs[1..], key, i - 1);
      j := j + 1;
    }
  }

  lemma {:induction false} OthersDistinct(pairs: seq<Pair>, key: string)
    requires DistinctKeys(pairs)
    ensures DistinctKeys(Others(pairs, key))
  {
    if pairs == [] {
    } else {
      OthersDistinct(pairs[1..], key);
      var rest := Others(pairs[1..], key);
      if pairs[0].key == key {
        assert [] + rest == rest;
      } else {
        forall i | 0 <= i < |rest| ensures rest[i].key != pairs[0].key {
          var j := OthersFrom(pairs[1..], key, i);
          assert pairs[1..][j] == pairs[j + 1];
        }
      }
    }
  }

  lemma PutDistinct(pairs: seq<Pair>, key: string, val: Json)
    requires DistinctKeys(pairs)
    ensures DistinctKeys(Put(pairs, key, val))
  {
    OthersDistinct(pairs, key);
    var rest := Others(pairs, key);
    forall i | 0 <= i < |rest| ensures rest[i].key != key {
      var j := OthersFrom(pairs, key, i);
    }
  }

  lemma {:induction false} GetMember(pairs: seq<Pair>, key: string) returns (i: nat)
    requires Get(pairs, key).Some?
    ensures i < |pairs| && pairs[i] == Pair(key, Get(pairs, key).value)
    ensures forall j :: 0 <= j < i ==> pairs[j].key != key
  {
    if pairs[0].key == key {
      i := 0;
    } else {
      i := GetMember(pairs[1..], key);
      i := i + 1;
    }
  }

  // ---- paths: section 4 of RFC 6901 ----

  /** A reference token: an array index, or a key. */
  datatype Tok = Idx(i: int) | Name(name: string)

  function Child(v: Json, t: Tok): Option<Json> {
    match t
    case Idx(i) => if v.Arr? && 0 <= i < |v.elems| then Some(v.elems[i]) else None
    case Name(name) => if v.Obj? then Get(v.pairs, name) else None
  }

  function Resolve(v: Json, path: seq<Tok>): Option<Json>
    decreases |path|
  {
    if path == [] then Some(v)
    else
      var c := Child(v, path[0]);
      if c.Some? then Resolve(c.value, path[1..]) else None
  }

  function SetFirst(pairs: seq<Pair>, key: string, val: Json): (r: seq<Pair>)
    ensures |r| == |pairs|
  {
    if pairs == [] then []
    else if pairs[0].key == key then [Pair(key, val)] + pairs[1..]
    else [pairs[0]] + SetFirst(pairs[1..], key, val)
  }

  function SetChild(v: Json, t: Tok, c: Json): Json
    requires Child(v, t).Some?
  {
    match t
    case Idx(i) => Arr(v.elems[i := c])
    case Name(name) => Obj(SetFirst(v.pairs, name, c))
  }

  /** The tree with `x` in the place the path leads to. */
  function Update(v: Json, path: seq<Tok>, x: Json): Json
    requires Resolve(v, path).Some?
    decreases |path|
  {
    if path == [] then x
    else SetChild(v, path[0], Update(Child(v, path[0]).value, path[1..], x))
  }

  lemma {:induction false} SetFirstGet(pairs: seq<Pair>, key: string, val: Json, other: string)
    requires Get(pairs, key).Some?
    ensures Get(SetFirst(pairs, key, val), other) == if other == key then Some(val) else Get(pairs, other)
  {
    if pairs[0].key == key {
    } else {
      SetFirstGet(pairs[1..], key, val, other);
    }
  }

  lemma {:induction false} SetFirstIs(pairs: seq<Pair>, key: string, val: Json, i: nat)
    requires i < |pairs| && pairs[i].key == key && forall j :: 0 <= j < i ==> pairs[j].key != key
    ensures SetFirst(pairs, key, val) == pairs[i := Pair(key, val)]
  {
    if i == 0 {
    } else {
      assert pairs[0].key != key;
      assert forall j :: 0 <= j < i - 1 ==> pairs[1..][j] == pairs[j + 1];
      SetFirstIs(pairs[1..], key, val, i - 1);
      assert pairs[i := Pair(key, val)] == [pairs[0]] + pairs[1..][i - 1 := Pair(key, val)];
    }
  }

  lemma SetChildGet(v: Json, t: Tok, c: Json, u: Tok)
    requires Child(v, t).Some?
    ensures Child(SetChild(v, t, c), u) == if u == t then Some(c) else Child(v, u)
  {
    if t.Name? && u.Name? {
      SetFirstGet(v.pairs, t.name, c, u.name);
    }
  }

  lemma SetChildTwice(v: Json, t: Tok, c: Json, d: Json)
    requires Child(v, t).Some?
    ensures Child(SetChild(v, t, c), t).Some? && SetChild(SetChild(v, t, c), t, d) == SetChild(v, t, d)
    ensures SetChild(v, t, Child(v, t).value) == v
  {
    SetChildGet(v, t, c, t);
    if t.Name? {
      var i := GetMember(v.pairs, t.name);
      SetFirstIs(v.pairs, t.name, c, i);
      SetFirstIs(v.pairs, t.name, d, i);
      SetFirstIs(v.pairs[i := Pair(t.name, c)], t.name, d, i);
      SetFirstIs(v.pairs, t.name, Child(v, t).value, i);
    }
  }

  lemma {:induction false} ResolveConcat(v: Json, p: seq<Tok>, q: seq<Tok>)
    ensures Resolve(v, p + q) == if Resolve(v, p).Some? then Resolve(Resolve(v, p).value, q) else None
    decreases |p|
  {
    if p == [] {
      assert p + q == q;
    } else {
      assert (p + q)[0] == p[0] && (p + q)[1..] == p[1..] + q;
      var c := Child(v, p[0]);
      if c.Some? { ResolveConcat(c.value, p[1..], q); }
    }
  }

  /** What was put at the end of a path is found there, and below it. */
  lemma {:induction false} UpdateBelow(v: Json, p: seq<Tok>, x: Json, q: seq<Tok>)
    requires Resolve(v, p).Some?
    ensures Resolve(Update(v, p, x), p + q) == Resolve(x, q)
    decreases |p|
  {
    if p == [] {
      assert p + q == q;
    } else {
      assert (p + q)[0] == p[0] && (p + q)[1..] == p[1..] + q;
      var c := Child(v, p[0]).value;
      SetChildGet(v, p[0], Update(c, p[1..], x), p[0]);
      UpdateBelow(c, p[1..], x, q);
    }
  }

  /** The paths part ways. */
  predicate Diverge(p: seq<Tok>, q: seq<Tok>)
    decreases |p|
  {
    p != [] && q != [] && (p[0] != q[0] || Diverge(p[1..], q[1..]))
  }

  /** An update changes nothing on a path that parts from its own. */
  lemma {:induction false} UpdateFrame(v: Json, p: seq<Tok>, x: Json, q: seq<Tok>)
    requires Resolve(v, p).Some? && Diverge(p, q)
    ensures Resolve(Update(v, p, x), q) == Resolve(v, q)
    decreases |p|
  {
    var c := Child(v, p[0]).value;
    SetChildGet(v, p[0], Update(c, p[1..], x), q[0]);
    if p[0] != q[0] {
    } else {
      UpdateFrame(c, p[1..], x, q[1..]);
    }
  }

  lemma {:induction false} UpdateTwice(v: Json, p: seq<Tok>, x: Json, y: Json)
    requires Resolve(v, p).Some?
    ensures Resolve(Update(v, p, x), p) == Some(x)
    ensures Update(Update(v, p, x), p, y) == Update(v, p, y)
    ensures Update(v, p, Resolve(v, p).value) == v
    decreases |p|
  {
    if p == [] {
    } else {
      var c := Child(v, p[0]).value;
      UpdateTwice(c, p[1..], x, y);
      SetChildGet(v, p[0], Update(c, p[1..], x), p[0]);
      SetChildTwice(v, p[0], Update(c, p[1..], x), Update(c, p[1..], y));
    }
  }

  lemma UpdateOne(v: Json, t: Tok, x: Json)
    ensures Resolve(v, [t]) == Child(v, t)
    ensures Child(v, t).Some? ==> Update(v, [t], x) == SetChild(v, t, x)
  {
    assert [t][1..] == [];
  }

  /** An update further down a path is an update of what the path leads to. */
  lemma {:induction false} UpdateConcat(v: Json, p: seq<Tok>, q: seq<Tok>, x: Json)
    requires Resolve(v, p).Some? && Resolve(Resolve(v, p).value, q).Some?
    ensures Resolve(v, p + q).Some? && Update(v, p + q, x) == Update(v, p, Update(Resolve(v, p).value, q, x))
    decreases |p|
  {
    ResolveConcat(v, p, q);
    if p == [] {
      assert p + q == q;
    } else {
      assert (p + q)[0] == p[0] && (p + q)[1..] == p[1..] + q;
      UpdateConcat(Child(v, p[0]).value, p[1..], q, x);
    }
  }

  lemma {:induction false} DivergeConcat(p: seq<Tok>, q: seq<Tok>, r: seq<Tok>)
    requires Diverge(p + q, r)
    ensures Diverge(p, r) || (|p| < |r| && r[..|p|] == p && Diverge(q, r[|p|..]))
    decreases |p|
  {
    if p == [] {
      assert p + q == q && r[0..] == r;
    } else {
      assert (p + q)[0] == p[0] && (p + q)[1..] == p[1..] + q;
      if p[0] == r[0] {
        DivergeConcat(p[1..], q, r[1..]);
        if !Diverge(p[1..], r[1..]) {
          assert r == [r[0]] + r[1..] && r[1..][|p| - 1..] == r[|p|..];
        }
      }
    }
  }
}
