/** Immutable JSON values of src/external/yyjson.h: a document is one array of cells of 16 bytes, in
    which a container's header gives its number of children and its size in bytes. */
module Tape {
  import opened JsonValues

  datatype Kind = NullKind | BoolKind | NumKind | StrKind | ArrKind | ObjKind

  /** `yyjson_val`: the tag's type and length, and the payload. */
  datatype Cell = Cell(kind: Kind, len: nat, uni: Payload)
  datatype Payload = Bits(bits: int) | Text(text: string) | Ofs(ofs: nat)

  const CELL := 16

  /** The cells of a value in document order. */
  function Cells(v: Json): (t: seq<Cell>)
    ensures t != []
    decreases v
  {
    match v
    case Null => [Cell(NullKind, 0, Bits(0))]
    case Bool(b) => [Cell(BoolKind, 0, Bits(if b then 1 else 0))]
    case Num(bits) => [Cell(NumKind, 0, Bits(bits))]
    case Str(text) => [Cell(StrKind, |text|, Text(text))]
    case Arr(elems) =>
      var body := CellsOfAll(elems);
      [Cell(ArrKind, |elems|, Ofs(CELL * (1 + |body|)))] + body
    case Obj(pairs) =>
      var body := CellsOfPairs(pairs);
      [Cell(ObjKind, |pairs|, Ofs(CELL * (1 + |body|)))] + body
  }

  function CellsOfAll(elems: seq<Json>): (t: seq<Cell>)
    decreases elems
  {
    if elems == [] then [] else Cells(elems[0]) + CellsOfAll(elems[1..])
  }

  function CellsOfPairs(pairs: seq<Pair>): (t: seq<Cell>)
    decreases pairs
  {
    if pairs == [] then []
    else [Cell(StrKind, |pairs[0].key|, Text(pairs[0].key))] + Cells(pairs[0].val) + CellsOfPairs(pairs[1..])
  }

  /** A container's header says how many children it has and how many bytes it takes, 16 for each cell. */
  lemma HeaderIs(v: Json)
    requires v.Arr? || v.Obj?
    ensures Cells(v)[0] == if v.Arr? then Cell(ArrKind, |v.elems|, Ofs(16 * |Cells(v)|))
                           else Cell(ObjKind, |v.pairs|, Ofs(16 * |Cells(v)|))
  {}

  /** The cells `part` are found at `p`. */
  ghost predicate Found(tape: seq<Cell>, p: nat, part: seq<Cell>) {
    p + |part| <= |tape| && tape[p..p + |part|] == part
  }

  /** Value `v` starts at cell `p`. */
  ghost predicate At(tape: seq<Cell>, p: nat, v: Json) {
    Found(tape, p, Cells(v))
  }

  lemma FoundParts(tape: seq<Cell>, p: nat, a: seq<Cell>, b: seq<Cell>)
    requires Found(tape, p, a + b)
    ensures Found(tape, p, a) && Found(tape, p + |a|, b)
  {
    var t := tape[p..p + |a + b|];
    assert tape[p..p + |a|] == t[..|a|] == a;
    assert tape[p + |a|..p + |a| + |b|] == t[|a|..] == b;
  }

  lemma {:induction false} CellsOfAllSplit(elems: seq<Json>, i: nat)
    requires i < |elems|
    ensures CellsOfAll(elems) == CellsOfAll(elems[..i]) + Cells(elems[i]) + CellsOfAll(elems[i + 1..])
  {
    if i == 0 {
    } else {
      CellsOfAllSplit(elems[1..], i - 1);
      assert elems[1..][..i - 1] == elems[..i][1..] && elems[1..][i..] == elems[i + 1..];
    }
  }

  lemma {:induction false} CellsOfAllStep(elems: seq<Json>, i: nat)
    requires i < |elems|
    ensures CellsOfAll(elems[..i + 1]) == CellsOfAll(elems[..i]) + Cells(elems[i])
  {
    CellsOfAllSplit(elems[..i + 1], i);
    assert elems[..i + 1][..i] == elems[..i];
  }

  lemma {:induction false} CellsOfPairsSplit(pairs: seq<Pair>, i: nat)
    requires i < |pairs|
    ensures CellsOfPairs(pairs) ==
            CellsOfPairs(pairs[..i])
            + ([Cell(StrKind, |pairs[i].key|, Text(pairs[i].key))] + Cells(pairs[i].val))
            + CellsOfPairs(pairs[i + 1..])
  {
    hide Cells;
    if i == 0 {
    } else {
      CellsOfPairsSplit(pairs[1..], i - 1);
      assert pairs[1..][..i - 1] == pairs[..i][1..] && pairs[1..][i..] == pairs[i + 1..];
    }
  }

  lemma {:induction false} CellsOfPairsStep(pairs: seq<Pair>, i: nat)
    requires i < |pairs|
    ensures |CellsOfPairs(pairs[..i + 1])| == |CellsOfPairs(pairs[..i])| + 1 + |Cells(pairs[i].val)|
  {
    CellsOfPairsSplit(pairs[..i + 1], i);
    assert pairs[..i + 1][..i] == pairs[..i];
  }

  /** Where element `i` of an array at `p` starts. */
  function ElemPos(p: nat, elems: seq<Json>, i: nat): nat
    requires i <= |elems|
  {
    p + 1 + |CellsOfAll(elems[..i])|
  }

  /** Where key `i` of an object at `p` is. */
  function KeyPos(p: nat, pairs: seq<Pair>, i: nat): nat
    requires i <= |pairs|
  {
    p + 1 + |CellsOfPairs(pairs[..i])|
  }

  lemma ElemAt(tape: seq<Cell>, p: nat, elems: seq<Json>, i: nat)
    requires At(tape, p, Arr(elems)) && i < |elems|
    ensures At(tape, ElemPos(p, elems, i), elems[i])
    ensures ElemPos(p, elems, i + 1) == ElemPos(p, elems, i) + |Cells(elems[i])|
  {
    CellsOfAllSplit(elems, i);
    var a, b, c := CellsOfAll(elems[..i]), Cells(elems[i]), CellsOfAll(elems[i + 1..]);
    FoundParts(tape, p, [Cells(Arr(elems))[0]], CellsOfAll(elems));
    FoundParts(tape, p + 1, a + b, c);
    FoundParts(tape, p + 1, a, b);
    CellsOfAllStep(elems, i);
  }

  lemma PairAt(tape: seq<Cell>, p: nat, pairs: seq<Pair>, i: nat)
    requires At(tape, p, Obj(pairs)) && i < |pairs|
    ensures KeyPos(p, pairs, i) < |tape|
    ensures tape[KeyPos(p, pairs, i)] == Cell(StrKind, |pairs[i].key|, Text(pairs[i].key))
    ensures At(tape, KeyPos(p, pairs, i) + 1, pairs[i].val)
    ensures KeyPos(p, pairs, i + 1) == KeyPos(p, pairs, i) + 1 + |Cells(pairs[i].val)|
  {
    CellsOfPairsSplit(pairs, i);
    var k := [Cell(StrKind, |pairs[i].key|, Text(pairs[i].key))];
    var a, b, c := CellsOfPairs(pairs[..i]), k + Cells(pairs[i].val), CellsOfPairs(pairs[i + 1..]);
    FoundParts(tape, p, [Cells(Obj(pairs))[0]], CellsOfPairs(pairs));
    FoundParts(tape, p + 1, a + b, c);
    FoundParts(tape, p + 1, a, b);
    FoundParts(tape, p + 1 + |a|, k, Cells(pairs[i].val));
    assert tape[p + 1 + |a|..p + 1 + |a| + 1][0] == tape[p + 1 + |a|];
    CellsOfPairsStep(pairs, i);
  }

  lemma Header(tape: seq<Cell>, p: nat, v: Json)
    requires At(tape, p, v)
    ensures p < |tape| && tape[p] == Cells(v)[0]
  {
    assert tape[p..p + |Cells(v)|][0] == tape[p];
  }

  /** The cells determine the value: no two trees have the same tape at one position. */
  lemma {:induction false} TapeDetermines(tape: seq<Cell>, p: nat, v: Json, w: Json)
    requires At(tape, p, v) && At(tape, p, w)
    ensures v == w
    decreases v
  {
    Header(tape, p, v);
    Header(tape, p, w);
    if v.Arr? {
      assert w.Arr? && |w.elems| == |v.elems|;
      SameElems(tape, p, v.elems, w.elems, |v.elems|);
      assert v.elems[..|v.elems|] == v.elems && w.elems[..|w.elems|] == w.elems;
    } else if v.Obj? {
      assert w.Obj? && |w.pairs| == |v.pairs|;
      SamePairs(tape, p, v.pairs, w.pairs, |v.pairs|);
      assert v.pairs[..|v.pairs|] == v.pairs && w.pairs[..|w.pairs|] == w.pairs;
    }
  }

  lemma {:induction false} SameElems(tape: seq<Cell>, p: nat, a: seq<Json>, b: seq<Json>, n: nat)
    requires At(tape, p, Arr(a)) && At(tape, p, Arr(b)) && n <= |a| == |b|
    ensures a[..n] == b[..n]
    decreases a, n
  {
    if n == 0 {
    } else {
      SameElems(tape, p, a, b, n - 1);
      ElemAt(tape, p, a, n - 1);
      ElemAt(tape, p, b, n - 1);
      TapeDetermines(tape, ElemPos(p, a, n - 1), a[n - 1], b[n - 1]);
    }
  }

  lemma {:induction false} SamePairs(tape: seq<Cell>, p: nat, a: seq<Pair>, b: seq<Pair>, n: nat)
    requires At(tape, p, Obj(a)) && At(tape, p, Obj(b)) && n <= |a| == |b|
    ensures a[..n] == b[..n]
    decreases a, n
  {
    if n == 0 {
    } else {
      SamePairs(tape, p, a, b, n - 1);
      PairAt(tape, p, a, n - 1);
      PairAt(tape, p, b, n - 1);
      TapeDetermines(tape, KeyPos(p, a, n - 1) + 1, a[n - 1].val, b[n - 1].val);
      assert a[..n] == a[..n - 1] + [a[n - 1]] && b[..n] == b[..n - 1] + [b[n - 1]];
    }
  }

  // ---- unsafe_yyjson_get_next and the flat test ----

  predicate IsCtn(c: Cell) { c.kind == ArrKind || c.kind == ObjKind }

  /** `unsafe_yyjson_get_next`. */
  function GetNext(tape: seq<Cell>, p: nat): nat
    requires p < |tape|
  {
    p + (if IsCtn(tape[p]) && tape[p].uni.Ofs? then tape[p].uni.ofs / CELL else 1)
  }

  /** It moves over the whole value. */
  lemma NextSkipsValue(tape: seq<Cell>, p: nat, v: Json)
    requires At(tape, p, v)
    ensures p < |tape| && GetNext(tape, p) == p + |Cells(v)|
  {
    Header(tape, p, v);
  }

  /** `unsafe_yyjson_arr_is_flat`. */
  predicate IsFlat(c: Cell)
    requires c.uni.Ofs?
  {
    c.len * CELL + CELL == c.uni.ofs
  }

  /** A value takes one cell: it is no container, or an empty one. */
  predicate OneCell(v: Json) {
    match v
    case Arr(elems) => elems == []
    case Obj(pairs) => pairs == []
    case _ => true
  }

  lemma OneCellSize(v: Json)
    ensures |Cells(v)| == 1 <==> OneCell(v)
  {}

  lemma {:induction false} FlatSize(elems: seq<Json>)
    ensures |CellsOfAll(elems)| >= |elems|
    ensures |CellsOfAll(elems)| == |elems| <==> forall i :: 0 <= i < |elems| ==> OneCell(elems[i])
  {
    if elems == [] {
    } else {
      FlatSize(elems[1..]);
      OneCellSize(elems[0]);
      if forall i :: 0 <= i < |elems[1..]| ==> OneCell(elems[1..][i]) {
        assert forall i :: 1 <= i < |elems| ==> elems[i] == elems[1..][i - 1];
      } else {
        var i :| 0 <= i < |elems[1..]| && !OneCell(elems[1..][i]);
        assert elems[i + 1] == elems[1..][i];
      }
    }
  }

  /** The flat test holds exactly when every child takes one cell. */
  lemma FlatIff(tape: seq<Cell>, p: nat, elems: seq<Json>)
    requires At(tape, p, Arr(elems))
    ensures p < |tape| && tape[p].uni.Ofs?
    ensures IsFlat(tape[p]) <==> forall i :: 0 <= i < |elems| ==> OneCell(elems[i])
  {
    Header(tape, p, Arr(elems));
    FlatSize(elems);
  }

  /** On a flat array element `i` is `i` cells after the first. */
  lemma FlatPos(p: nat, elems: seq<Json>, i: nat)
    requires i <= |elems| && forall j :: 0 <= j < |elems| ==> OneCell(elems[j])
    ensures ElemPos(p, elems, i) == p + 1 + i
  {
    FlatSize(elems[..i]);
  }

  // ---- arrays ----

  /** Walk over `count` values from the first child. */
  method WalkElems(tape: seq<Cell>, arr: nat, count: nat, ghost elems: seq<Json>) returns (val: nat)
    requires At(tape, arr, Arr(elems)) && count < |elems|
    ensures val == ElemPos(arr, elems, count)
  {
    val := arr + 1;
    var idx := count;
    while idx > 0
      invariant 0 <= idx <= count && val == ElemPos(arr, elems, count - idx)
    {
      ElemAt(tape, arr, elems, count - idx);
      NextSkipsValue(tape, val, elems[count - idx]);
      idx := idx - 1;
      val := GetNext(tape, val);
    }
  }

  predicate IsArr(tape: seq<Cell>, v: Option<nat>) {
    v.Some? && v.value < |tape| && tape[v.value].kind == ArrKind
  }

  predicate IsObj(tape: seq<Cell>, v: Option<nat>) {
    v.Some? && v.value < |tape| && tape[v.value].kind == ObjKind
  }

  /** `yyjson_arr_get`: the same child through the shortcut and through the walk. */
  method ArrGet(tape: seq<Cell>, arr: Option<nat>, idx: nat, ghost v: Json) returns (val: Option<nat>)
    requires arr.Some? ==> At(tape, arr.value, v)
    ensures arr.Some? && v.Arr? && idx < |v.elems| ==>
              val == Some(ElemPos(arr.value, v.elems, idx)) && At(tape, val.value, v.elems[idx])
    ensures !(arr.Some? && v.Arr? && idx < |v.elems|) ==> val == None
  {
    val := None;
    if arr.Some? {
      Header(tape, arr.value, v);
      if IsArr(tape, arr) && tape[arr.value].len > idx {
        FlatIff(tape, arr.value, v.elems);
        ElemAt(tape, arr.value, v.elems, idx);
        if IsFlat(tape[arr.value]) {
          FlatPos(arr.value, v.elems, idx);
          val := Some(arr.value + 1 + idx);
        } else {
          var at := WalkElems(tape, arr.value, idx, v.elems);
          val := Some(at);
        }
      }
    }
  }

  /** `yyjson_arr_get_last`. */
  method ArrGetLast(tape: seq<Cell>, arr: Option<nat>, ghost v: Json) returns (val: Option<nat>)
    requires arr.Some? ==> At(tape, arr.value, v)
    ensures arr.Some? && v.Arr? && v.elems != [] ==>
              val == Some(ElemPos(arr.value, v.elems, |v.elems| - 1)) && At(tape, val.value, v.elems[|v.elems| - 1])
    ensures !(arr.Some? && v.Arr? && v.elems != []) ==> val == None
  {
    val := None;
    if arr.Some? {
      Header(tape, arr.value, v);
      if IsArr(tape, arr) && tape[arr.value].len > 0 {
        var len := tape[arr.value].len;
        FlatIff(tape, arr.value, v.elems);
        ElemAt(tape, arr.value, v.elems, len - 1);
        if IsFlat(tape[arr.value]) {
          FlatPos(arr.value, v.elems, len - 1);
          val := Some(arr.value + 1 + (len - 1));
        } else {
          var at := WalkElems(tape, arr.value, len - 1, v.elems);
          val := Some(at);
        }
      }
    }
  }

  // ---- objects ----

  /** The first pair from `from` on, before `end`, with this key; `end` if there is none. */
  function KeyFrom(pairs: seq<Pair>, key: string, from: nat, end: nat): (k: nat)
    requires from <= end <= |pairs|
    ensures from <= k <= end && (k < end ==> pairs[k].key == key)
    ensures forall i :: from <= i < k ==> pairs[i].key != key
    decreases end - from
  {
    if from == end || pairs[from].key == key then from else KeyFrom(pairs, key, from + 1, end)
  }

  lemma {:induction false} NotFound(pairs: seq<Pair>, key: string)
    requires Get(pairs, key).None?
    ensures forall i :: 0 <= i < |pairs| ==> pairs[i].key != key
  {
    if pairs == [] {
    } else {
      NotFound(pairs[1..], key);
      assert forall i :: 1 <= i < |pairs| ==> pairs[i] == pairs[1..][i - 1];
    }
  }

  /** The first pair with a key holds what is found under it. */
  lemma GetIsFirst(pairs: seq<Pair>, key: string)
    ensures Get(pairs, key) ==
            var k := KeyFrom(pairs, key, 0, |pairs|); if k < |pairs| then Some(pairs[k].val) else None
  {
    var k := KeyFrom(pairs, key, 0, |pairs|);
    if Get(pairs, key).Some? {
      var i := GetMember(pairs, key);
      assert i == k;
    } else {
      NotFound(pairs, key);
    }
  }

  /** `yyjson_obj_getn`. */
  method ObjGet(tape: seq<Cell>, obj: Option<nat>, name: string, ghost v: Json) returns (val: Option<nat>)
    requires obj.Some? ==> At(tape, obj.value, v)
    ensures val.Some? <==> obj.Some? && v.Obj? && Get(v.pairs, name).Some?
    ensures val.Some? ==> val.value == KeyPos(obj.value, v.pairs, KeyFrom(v.pairs, name, 0, |v.pairs|)) + 1
    ensures val.Some? ==> At(tape, val.value, Get(v.pairs, name).value)
  {
    hide CellsOfAll, Get, Found;
    if obj.Some? { Header(tape, obj.value, v); }
    if IsObj(tape, obj) {
      GetIsFirst(v.pairs, name);
      var max := tape[obj.value].len;
      var len := max;
      var key := obj.value + 1;
      while len > 0
        invariant 0 <= len <= max && key == KeyPos(obj.value, v.pairs, max - len)
        invariant KeyFrom(v.pairs, name, 0, max) == KeyFrom(v.pairs, name, max - len, max)
      {
        PairAt(tape, obj.value, v.pairs, max - len);
        if tape[key].kind == StrKind && tape[key].len == |name| && tape[key].uni == Text(name) {
          return Some(key + 1);
        }
        NextSkipsValue(tape, key + 1, v.pairs[max - len].val);
        len := len - 1;
        key := GetNext(tape, key + 1);
      }
    }
    return None;
  }

  ghost predicate NoneIn(pairs: seq<Pair>, name: string, from: nat, end: nat) {
    forall j :: from <= j < end && j < |pairs| ==> pairs[j].key != name
  }

  /** The pair an iterator at `start` finds: the first one from there on, else the first one before. */
  function Cyclic(pairs: seq<Pair>, name: string, start: nat): (k: nat)
    requires start <= |pairs|
  {
    var k := KeyFrom(pairs, name, start, |pairs|);
    if k < |pairs| then k
    else
      var j := KeyFrom(pairs, name, 0, start);
      if j < start then j else |pairs|
  }

  lemma CyclicAt(pairs: seq<Pair>, name: string, start: nat, k: nat)
    requires start <= |pairs| && k < |pairs| && pairs[k].key == name
    requires start <= k ==> NoneIn(pairs, name, start, k)
    requires k < start ==> NoneIn(pairs, name, start, |pairs|) && NoneIn(pairs, name, 0, k)
    ensures Cyclic(pairs, name, start) == k
  {}

  lemma CyclicNone(pairs: seq<Pair>, name: string, start: nat)
    requires start <= |pairs| && NoneIn(pairs, name, start, |pairs|) && NoneIn(pairs, name, 0, start)
    ensures Cyclic(pairs, name, start) == |pairs|
  {}

  /** `yyjson_obj_iter`. */
  class ObjIter {
    var idx: nat
    var max: nat
    var cur: nat
    var obj: nat

    /** The iterator stands before pair `idx` of the object. */
    ghost predicate Valid(tape: seq<Cell>, pairs: seq<Pair>) reads this {
      At(tape, obj, Obj(pairs)) && idx <= max == |pairs| && cur == KeyPos(obj, pairs, idx)
    }

    /** `yyjson_obj_iter_init` on an object. */
    constructor (tape: seq<Cell>, obj: nat, ghost pairs: seq<Pair>)
      requires At(tape, obj, Obj(pairs))
      ensures Valid(tape, pairs) && idx == 0 && this.obj == obj
    {
      Header(tape, obj, Obj(pairs));
      idx := 0;
      max := tape[obj].len;
      cur := obj + 1;
      this.obj := obj;
    }

    /** `yyjson_obj_iter_next`. */
    method Next(tape: seq<Cell>, ghost pairs: seq<Pair>) returns (key: Option<nat>)
      requires Valid(tape, pairs)
      modifies this`idx, this`cur
      ensures Valid(tape, pairs)
      ensures old(idx) < |pairs| ==> key == Some(KeyPos(obj, pairs, old(idx))) && idx == old(idx) + 1
      ensures old(idx) == |pairs| ==> key == None && idx == old(idx)
    {
      key := None;
      if idx < max {
        PairAt(tape, obj, pairs, idx);
        NextSkipsValue(tape, cur + 1, pairs[idx].val);
        key := Some(cur);
        idx := idx + 1;
        cur := GetNext(tape, cur + 1);
      }
    }

    /** `yyjson_obj_iter_getn`: the first pair with this key, going round from the iterator's position; the
        iterator then stands after that pair. */
    method GetKey(tape: seq<Cell>, name: string, ghost pairs: seq<Pair>) returns (val: Option<nat>)
      requires Valid(tape, pairs)
      modifies this`idx, this`cur
      ensures Valid(tape, pairs)
      ensures val.Some? <==> Cyclic(pairs, name, old(idx)) < |pairs|
      ensures val.Some? ==> idx == Cyclic(pairs, name, old(idx)) + 1 && val.value == KeyPos(obj, pairs, idx - 1) + 1
      ensures val.Some? ==> At(tape, val.value, pairs[idx - 1].val)
      ensures val.None? ==> idx == old(idx)
    {
      var i, end, at := idx, max, cur;
      ghost var wrapped := false;
      if i == end {
        i := 0;
        at := obj + 1;
        wrapped := true;
      }
      hide Found, Cells, Cyclic;
      while i < end
        invariant idx == old(idx) && cur == old(cur)
        invariant 0 <= i <= end <= max && at == KeyPos(obj, pairs, i)
        invariant !wrapped ==> end == max && idx <= i < max && NoneIn(pairs, name, idx, i)
        invariant wrapped ==> end == idx && NoneIn(pairs, name, idx, max) && NoneIn(pairs, name, 0, i)
        decreases !wrapped, end - i
      {
        PairAt(tape, obj, pairs, i);
        NextSkipsValue(tape, at + 1, pairs[i].val);
        var next := GetNext(tape, at + 1);
        i := i + 1;
        if tape[at].len == |name| && tape[at].uni == Text(name) {
          CyclicAt(pairs, name, idx, i - 1);
          idx := i;
          cur := next;
          return Some(at + 1);
        }
        at := next;
        if i == max && idx < max {
          i := 0;
          end := idx;
          at := obj + 1;
          wrapped := true;
        }
      }
      CyclicNone(pairs, name, idx);
      return None;
    }
  }

  /** From any position the iterator finds a key exactly when a search from the start does. */
  lemma CyclicFinds(pairs: seq<Pair>, name: string, start: nat)
    requires start <= |pairs|
    ensures Cyclic(pairs, name, start) < |pairs| <==> KeyFrom(pairs, name, 0, |pairs|) < |pairs|
    ensures Cyclic(pairs, name, start) < |pairs| ==> pairs[Cyclic(pairs, name, start)].key == name
  {
    var first := KeyFrom(pairs, name, 0, |pairs|);
    if first < |pairs| {
      assert pairs[first].key == name;
    }
  }

  /** With distinct keys it finds the same pair. */
  lemma CyclicSame(pairs: seq<Pair>, name: string, start: nat)
    requires start <= |pairs| && DistinctKeys(pairs)
    ensures Cyclic(pairs, name, start) == KeyFrom(pairs, name, 0, |pairs|)
  {
    CyclicFinds(pairs, name, start);
    var a, b := Cyclic(pairs, name, start), KeyFrom(pairs, name, 0, |pairs|);
    if a < |pairs| {
      assert pairs[a].key == pairs[b].key;
    }
  }
}
