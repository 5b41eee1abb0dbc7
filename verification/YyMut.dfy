/** Mutable JSON values of src/external/yyjson.h: the elements of a container form a ring, and the
    container points at its last element (or, for an object, at its last key). */
module YyNodes {
  datatype Kind = Raw | Null | Bool | Num | Str | Arr | Obj

  /** `yyjson_mut_val`: `kind` is the type half of the tag, `len` the length half of a container's tag,
      `str` (with its own length) and `ptr` are the payload. */
  class MutVal {
    var kind: Kind
    var len: nat
    var str: string
    var ptr: MutVal?
    var next: MutVal?

    constructor (kind: Kind)
      ensures this.kind == kind && len == 0 && ptr == null && next == null
    {
      this.kind := kind;
      len, str, ptr, next := 0, "", null, null;
    }
  }

  ghost predicate Distinct(s: seq<MutVal>) {
    forall i, j :: 0 <= i < j < |s| ==> s[i] != s[j]
  }

  /** The objects a possibly null pointer and a list of elements stand for, in frames. */
  ghost function Only(v: MutVal?): set<MutVal> {
    if v == null then {} else {v}
  }

  ghost function Elements(s: seq<MutVal>): set<MutVal> {
    set e | e in s
  }
}

/** Mutable arrays. */
module YyMutArr {
  import opened MachineInts
  import opened Sequences
  import opened YyNodes

  /** The elements in order, each linked to the next and the last one to the first. */
  ghost predicate Ring(s: seq<MutVal>) reads Elements(s)`next {
    && Distinct(s)
    && (forall i :: 0 <= i < |s| - 1 ==> s[i].next == s[i + 1])
    && (s != [] ==> s[|s| - 1].next == s[0])
  }

  /** `arr` is the array of `elems`. */
  ghost predicate IsArray(arr: MutVal, elems: seq<MutVal>)
    reads arr`kind, arr`len, arr`ptr, Elements(elems)`next
  {
    && arr.kind == Arr && arr.len == |elems|
    && Ring(elems)
    && (elems != [] ==> arr.ptr == elems[|elems| - 1])
  }

  /** Walk `count` elements from the last one: the loop of get and of rotate. */
  method Walk(last: MutVal, count: nat, ghost elems: seq<MutVal>) returns (at: MutVal)
    requires Ring(elems) && elems != [] && last == elems[|elems| - 1] && count <= |elems|
    ensures at == Before(elems, count)
  {
    at := last;
    var idx := count;
    while idx > 0
      invariant 0 <= idx <= count && at == Before(elems, count - idx)
    {
      assert at.next == After(elems, count - idx);
      idx := idx - 1;
      at := at.next;
    }
  }

  /** The same walk keeping the element before as well. */
  method WalkPair(last: MutVal, count: nat, ghost elems: seq<MutVal>) returns (prev: MutVal, next: MutVal)
    requires Ring(elems) && elems != [] && last == elems[|elems| - 1] && count < |elems|
    ensures prev == Before(elems, count) && next == elems[count]
  {
    prev := last;
    next := prev.next;
    var idx := count;
    while idx > 0
      invariant 0 <= idx <= count && prev == Before(elems, count - idx) && next == elems[count - idx]
    {
      assert next.next == After(elems, count - idx + 1);
      idx := idx - 1;
      prev := next;
      next := next.next;
    }
  }

  /** `yyjson_mut_arr_get`. */
  method Get(arr: MutVal?, idx: nat, ghost elems: seq<MutVal>) returns (val: MutVal?)
    requires arr != null && arr.kind == Arr ==> IsArray(arr, elems)
    ensures arr != null && arr.kind == Arr && idx < |elems| ==> val == elems[idx]
    ensures !(arr != null && arr.kind == Arr && idx < |elems|) ==> val == null
  {
    if arr != null && arr.kind == Arr && idx < arr.len {
      var at := Walk(arr.ptr, idx, elems);
      val := at.next;
    } else {
      val := null;
    }
  }

  /** Is it an array at all? */
  predicate IsArr(arr: MutVal?) reads arr {
    arr != null && arr.kind == Arr
  }

  /** Link `val` in before position `k`, which is not the end. */
  method LinkBetween(prev: MutVal, val: MutVal, next: MutVal, ghost k: nat, ghost elems: seq<MutVal>)
    requires Ring(elems) && k < |elems| && prev == Before(elems, k) && next == elems[k] && val !in elems
    modifies Elements(elems)`next, val`next
    ensures Ring(InsertAt(elems, k, val))
  {
    prev.next := val;
    val.next := next;
  }

  /** `yyjson_mut_arr_insert`. */
  method Insert(arr: MutVal?, val: MutVal?, idx: nat, ghost elems: seq<MutVal>) returns (ok: bool)
    requires IsArr(arr) ==> IsArray(arr, elems)
    requires val != null ==> val !in elems
    modifies Only(arr)`len, Only(arr)`ptr, Elements(elems)`next, Only(val)`next
    ensures ok <==> IsArr(arr) && val != null && idx <= |elems|
    ensures IsArr(arr) ==> IsArray(arr, if ok then InsertAt(elems, idx, val) else elems)
  {
    ok := false;
    if arr != null && arr.kind == Arr && val != null {
      var len := arr.len;
      if idx <= len {
        arr.len := len + 1;
        if len == 0 {
          val.next := val;
          arr.ptr := val;
        } else {
          var prev: MutVal := arr.ptr;
          var next: MutVal := prev.next;
          if idx == len {
            prev.next := val;
            val.next := next;
            arr.ptr := val;
          } else {
            prev, next := WalkPair(arr.ptr, idx, elems);
            LinkBetween(prev, val, next, idx, elems);
          }
        }
        ok := true;
      }
    }
  }

  /** `yyjson_mut_arr_append`. */
  method Append(arr: MutVal?, val: MutVal?, ghost elems: seq<MutVal>) returns (ok: bool)
    requires IsArr(arr) ==> IsArray(arr, elems)
    requires val != null ==> val !in elems
    modifies Only(arr)`len, Only(arr)`ptr, Elements(elems)`next, Only(val)`next
    ensures ok <==> IsArr(arr) && val != null
    ensures IsArr(arr) ==> IsArray(arr, if ok then elems + [val] else elems)
  {
    ok := false;
    if arr != null && arr.kind == Arr && val != null {
      var len := arr.len;
      arr.len := len + 1;
      if len == 0 {
        val.next := val;
      } else {
        var prev: MutVal := arr.ptr;
        var next := prev.next;
        prev.next := val;
        val.next := next;
      }
      arr.ptr := val;
      ok := true;
    }
  }

  /** `yyjson_mut_arr_prepend`. */
  method Prepend(arr: MutVal?, val: MutVal?, ghost elems: seq<MutVal>) returns (ok: bool)
    requires IsArr(arr) ==> IsArray(arr, elems)
    requires val != null ==> val !in elems
    modifies Only(arr)`len, Only(arr)`ptr, Elements(elems)`next, Only(val)`next
    ensures ok <==> IsArr(arr) && val != null
    ensures IsArr(arr) ==> IsArray(arr, if ok then [val] + elems else elems)
  {
    ok := false;
    if arr != null && arr.kind == Arr && val != null {
      var len := arr.len;
      arr.len := len + 1;
      if len == 0 {
        val.next := val;
        arr.ptr := val;
      } else {
        var prev: MutVal := arr.ptr;
        var next := prev.next;
        prev.next := val;
        val.next := next;
      }
      ok := true;
    }
  }

  /** `yyjson_mut_arr_replace`. */
  method Replace(arr: MutVal?, idx: nat, val: MutVal?, ghost elems: seq<MutVal>) returns (replaced: MutVal?)
    requires IsArr(arr) ==> IsArray(arr, elems)
    requires val != null ==> val !in elems
    modifies Only(arr)`ptr, Elements(elems)`next, Only(val)`next
    ensures replaced == if IsArr(arr) && val != null && idx < |elems| then elems[idx] else null
    ensures IsArr(arr) ==> IsArray(arr, if replaced != null then elems[idx := val] else elems)
  {
    replaced := null;
    if arr != null && arr.kind == Arr && val != null {
      var len := arr.len;
      if idx < len {
        if len > 1 {
          var prev, next := WalkPair(arr.ptr, idx, elems);
          assert next.next == After(elems, idx + 1);
          prev.next := val;
          val.next := next.next;
          if next == arr.ptr {
            arr.ptr := val;
          }
          replaced := next;
        } else {
          replaced := arr.ptr;
          val.next := val;
          arr.ptr := val;
        }
      }
    }
  }

  /** Link the element before a range to the one after it. */
  method CutRange(prev: MutVal, next: MutVal, ghost start: nat, ghost count: nat, ghost elems: seq<MutVal>)
    requires Ring(elems) && start + count <= |elems| && count < |elems|
    requires prev == Before(elems, start) && next == After(elems, start + count)
    modifies Elements(elems)`next
    ensures Ring(elems[..start] + elems[start + count..])
  {
    ghost var c := elems[..start] + elems[start + count..];
    assert forall i :: 0 <= i < |c| ==> c[i] == elems[if i < start then i else i + count];
    prev.next := next;
    forall i | 0 <= i < |c| - 1 ensures c[i].next == c[i + 1] {
      if i != start - 1 {
        assert c[i] != prev;
      }
    }
  }

  /** Unlink one of several elements. */
  lemma RingNext(elems: seq<MutVal>, idx: nat)
    requires Ring(elems) && idx < |elems|
    ensures elems[idx].next == After(elems, idx + 1)
    ensures elems[idx] == elems[|elems| - 1] <==> idx == |elems| - 1
  {}

  method Unlink(arr: MutVal, idx: nat, ghost elems: seq<MutVal>) returns (removed: MutVal)
    requires Ring(elems) && idx < |elems| && |elems| > 1 && arr.ptr == elems[|elems| - 1]
    modifies arr`ptr, Elements(elems)`next
    ensures removed == elems[idx]
    ensures Ring(Without(elems, idx)) && arr.ptr == Without(elems, idx)[|elems| - 2]
  {
    hide Ring, Distinct;
    var last := arr.ptr;
    RingNext(elems, idx);
    var prev, next := WalkPair(last, idx, elems);
    CutRange(prev, next.next, idx, 1, elems);
    if next == last {
      arr.ptr := prev;
    }
    removed := next;
  }

  /** `yyjson_mut_arr_remove`. */
  method Remove(arr: MutVal?, idx: nat, ghost elems: seq<MutVal>) returns (removed: MutVal?)
    requires IsArr(arr) ==> IsArray(arr, elems)
    modifies Only(arr)`len, Only(arr)`ptr, Elements(elems)`next
    ensures removed == if IsArr(arr) && idx < |elems| then elems[idx] else null
    ensures IsArr(arr) ==> IsArray(arr, if removed != null then Without(elems, idx) else elems)
  {
    removed := null;
    if arr != null && arr.kind == Arr {
      var len := arr.len;
      if idx < len {
        arr.len := len - 1;
        if len > 1 {
          removed := Unlink(arr, idx, elems);
        } else {
          removed := arr.ptr;
        }
      }
    }
  }

  /** `yyjson_mut_arr_remove_first`. */
  method RemoveFirst(arr: MutVal?, ghost elems: seq<MutVal>) returns (removed: MutVal?)
    requires IsArr(arr) ==> IsArray(arr, elems)
    modifies Only(arr)`len, Elements(elems)`next
    ensures removed == if IsArr(arr) && elems != [] then elems[0] else null
    ensures IsArr(arr) ==> IsArray(arr, if elems != [] then elems[1..] else elems)
  {
    removed := null;
    if arr != null && arr.kind == Arr {
      var len := arr.len;
      if len > 1 {
        var prev: MutVal := arr.ptr;
        var next := prev.next;
        assert next.next == elems[1];
        prev.next := next.next;
        arr.len := len - 1;
        removed := next;
      } else if len == 1 {
        removed := arr.ptr;
        arr.len := 0;
      }
    }
  }

  /** `yyjson_mut_arr_remove_last`. */
  method RemoveLast(arr: MutVal?, ghost elems: seq<MutVal>) returns (removed: MutVal?)
    requires IsArr(arr) ==> IsArray(arr, elems)
    modifies Only(arr)`len, Only(arr)`ptr, Elements(elems)`next
    ensures removed == if IsArr(arr) && elems != [] then elems[|elems| - 1] else null
    ensures IsArr(arr) ==> IsArray(arr, if elems != [] then elems[..|elems| - 1] else elems)
  {
    removed := null;
    if arr != null && arr.kind == Arr {
      var len := arr.len;
      if len > 1 {
        var prev: MutVal := arr.ptr;
        var next := prev.next;
        arr.len := len - 1;
        prev := Walk(prev, len - 1, elems);
        prev.next := next;
        removed := arr.ptr;
        arr.ptr := prev;
      } else if len == 1 {
        removed := arr.ptr;
        arr.len := 0;
      }
    }
  }

  /** Walk on from the element after position `start`. */
  method WalkOn(from: MutVal, start: nat, count: nat, ghost elems: seq<MutVal>) returns (at: MutVal)
    requires Ring(elems) && start + count <= |elems| && elems != [] && from == After(elems, start)
    ensures at == After(elems, start + count)
  {
    at := from;
    var left := count;
    while left > 0
      invariant 0 <= left <= count && at == After(elems, start + (count - left))
    {
      assert at.next == After(elems, start + (count - left) + 1);
      left := left - 1;
      at := at.next;
    }
  }

  /** Unlink a range that is not the whole array. */
  method UnlinkRange(arr: MutVal, start: nat, count: nat, len: nat, ghost elems: seq<MutVal>)
    requires Ring(elems) && start + count <= len == |elems| && 0 < count < len && arr.ptr == elems[len - 1]
    modifies arr`ptr, Elements(elems)`next
    ensures Ring(elems[..start] + elems[start + count..])
    ensures arr.ptr == (elems[..start] + elems[start + count..])[len - count - 1]
  {
    var tailRemoved := start + count == len;
    var prev := Walk(arr.ptr, start, elems);
    assert prev.next == After(elems, start);
    var next := WalkOn(prev.next, start, count, elems);
    hide Ring, Distinct;
    CutRange(prev, next, start, count, elems);
    if tailRemoved {
      arr.ptr := prev;
    }
  }

  /** `Wrapped`: the end of the range runs over the 64 bits of its sum and so passes the test for it, and
      the array is linked up wrongly. */
  datatype Removal = Refused | Removed | Wrapped

  /** `yyjson_mut_arr_remove_range`, up to the point where a range that runs over is let through. */
  method RemoveRange(arr: MutVal?, start: nat, count: nat, ghost elems: seq<MutVal>) returns (r: Removal)
    requires IsArr(arr) ==> IsArray(arr, elems)
    requires start < TWO64 && count < TWO64
    modifies Only(arr)`len, Only(arr)`ptr, Elements(elems)`next
    ensures r == Removed <==> IsArr(arr) && start + count <= |elems| && start + count < TWO64
    ensures r == Wrapped <==> IsArr(arr) && TWO64 <= start + count <= |elems| + TWO64
    ensures IsArr(arr) ==> IsArray(arr, if r == Removed then elems[..start] + elems[start + count..] else elems)
  {
    r := Refused;
    if arr != null && arr.kind == Arr {
      var len := arr.len;
      if (start + count) % TWO64 > len { return; }
      if start + count >= TWO64 { return Wrapped; }
      r := Removed;
      if count == 0 {
        assert elems[..start] + elems[start..] == elems;
        return;
      }
      arr.len := len - count;
      if len == count { return; }
      UnlinkRange(arr, start, count, len, elems);
    }
  }

  lemma RingRotated(s: seq<MutVal>, k: nat)
    requires Ring(s) && k <= |s|
    ensures Ring(Rotated(s, k))
  {
    var r := Rotated(s, k);
    var n := |s|;
    assert forall i :: 0 <= i < n ==> r[i] == s[if i < n - k then i + k else i - (n - k)];
    forall i | 0 <= i < n - 1 ensures r[i].next == r[i + 1] {
      if i == n - k - 1 { assert s[n - 1].next == s[0]; }
    }
  }

  /** `yyjson_mut_arr_rotate`: only the pointer to the last element moves. */
  method Rotate(arr: MutVal?, idx: nat, ghost elems: seq<MutVal>) returns (ok: bool)
    requires IsArr(arr) ==> IsArray(arr, elems)
    modifies Only(arr)`ptr
    ensures ok <==> IsArr(arr) && idx < |elems|
    ensures IsArr(arr) ==> IsArray(arr, if ok then Rotated(elems, idx) else elems)
  {
    ok := false;
    if arr != null && arr.kind == Arr && arr.len > idx {
      arr.ptr := Walk(arr.ptr, idx, elems);
      RingRotated(elems, idx);
      ok := true;
    }
  }
}

/** Mutable objects: a ring in which every key is followed by its value. */
module YyMutObj {
  import opened Sequences
  import opened YyNodes

  /** Keys and values in order: each key is linked to its value, each value to the next key, and the
      last value to the first key. */
  ghost predicate Wheel(keys: seq<MutVal>, vals: seq<MutVal>)
    reads Elements(keys)`next, Elements(vals)`next
  {
    && |keys| == |vals| && Distinct(keys + vals)
    && (forall i :: 0 <= i < |keys| ==> keys[i].next == vals[i])
    && (forall i :: 0 <= i < |keys| - 1 ==> vals[i].next == keys[i + 1])
    && (keys != [] ==> vals[|vals| - 1].next == keys[0])
  }

  /** `obj` is the object of these pairs. */
  ghost predicate IsObject(obj: MutVal, keys: seq<MutVal>, vals: seq<MutVal>)
    reads obj`kind, obj`len, obj`ptr, Elements(keys)`next, Elements(vals)`next
  {
    && obj.kind == Obj && obj.len == |keys|
    && Wheel(keys, vals)
    && (keys != [] ==> obj.ptr == keys[|keys| - 1])
  }

  predicate IsObj(obj: MutVal?) reads obj {
    obj != null && obj.kind == Obj
  }

  /** The keys are not values, and no key or value occurs twice. */
  lemma WheelParts(keys: seq<MutVal>, vals: seq<MutVal>)
    requires |keys| == |vals|
    ensures Distinct(keys + vals) <==>
              && Distinct(keys) && Distinct(vals)
              && forall i, j :: 0 <= i < |keys| && 0 <= j < |vals| ==> keys[i] != vals[j]
  {
    var all := keys + vals;
    if Distinct(all) {
      forall i, j | 0 <= i < j < |keys| ensures keys[i] != keys[j] {
        assert all[i] == keys[i] && all[j] == keys[j];
      }
      forall i, j | 0 <= i < j < |vals| ensures vals[i] != vals[j] {
        assert all[|keys| + i] == vals[i] && all[|keys| + j] == vals[j];
      }
      forall i, j | 0 <= i < |keys| && 0 <= j < |vals| ensures keys[i] != vals[j] {
        assert all[i] == keys[i] && all[|keys| + j] == vals[j];
      }
    }
  }

  /** The key's tag and bytes are those of this string. */
  predicate Matches(key: MutVal, name: string) reads key`kind, key`str {
    key.kind == Str && key.str == name
  }

  /** The keys other than `name`, in order, and their values. */
  ghost function KeptKeys(name: string, keys: seq<MutVal>): (r: seq<MutVal>)
    reads Elements(keys)`kind, Elements(keys)`str
  {
    if keys == [] then []
    else (if Matches(keys[0], name) then [] else [keys[0]]) + KeptKeys(name, keys[1..])
  }

  ghost function KeptVals(name: string, keys: seq<MutVal>, vals: seq<MutVal>): (r: seq<MutVal>)
    requires |keys| == |vals|
    reads Elements(keys)`kind, Elements(keys)`str
  {
    if keys == [] then []
    else (if Matches(keys[0], name) then [] else [vals[0]]) + KeptVals(name, keys[1..], vals[1..])
  }

  /** The position of the first key `name`, or the number of pairs. */
  ghost function FirstMatch(name: string, keys: seq<MutVal>): (k: nat)
    reads Elements(keys)`kind, Elements(keys)`str
    ensures k <= |keys| && (k < |keys| ==> Matches(keys[k], name))
    ensures forall i :: 0 <= i < k ==> !Matches(keys[i], name)
  {
    if keys == [] || Matches(keys[0], name) then 0 else 1 + FirstMatch(name, keys[1..])
  }

  /** The value found under `name` among these pairs. */
  ghost function Lookup(name: string, keys: seq<MutVal>, vals: seq<MutVal>): MutVal?
    requires |keys| == |vals|
    reads Elements(keys)`kind, Elements(keys)`str
  {
    if FirstMatch(name, keys) < |keys| then vals[FirstMatch(name, keys)] else null
  }

  /** The first key `name`: the loop that getn and replace share. */
  method Seek(obj: MutVal, name: string, ghost keys: seq<MutVal>, ghost vals: seq<MutVal>) returns (key: MutVal?)
    requires IsObject(obj, keys, vals) && keys != []
    ensures key == if FirstMatch(name, keys) < |keys| then keys[FirstMatch(name, keys)] else null
  {
    assert vals[|vals| - 1].next == keys[0];
    key := obj.ptr.next.next;
    var len := obj.len;
    while len > 0
      invariant 0 <= len <= |keys| && key == After(keys, |keys| - len)
      invariant FirstMatch(name, keys) >= |keys| - len
    {
      if Matches(key, name) {
        return;
      }
      assert key.next.next == After(keys, |keys| - len + 1);
      key := key.next.next;
      len := len - 1;
    }
    key := null;
  }

  /** `yyjson_mut_obj_getn`. */
  method Get(obj: MutVal?, name: string, ghost keys: seq<MutVal>, ghost vals: seq<MutVal>) returns (val: MutVal?)
    requires IsObj(obj) ==> IsObject(obj, keys, vals)
    ensures IsObj(obj) && |keys| == |vals| ==> val == Lookup(name, keys, vals)
    ensures !IsObj(obj) ==> val == null
  {
    val := null;
    if obj != null && obj.kind == Obj && obj.len > 0 {
      var key := Seek(obj, name, keys, vals);
      if key != null {
        assert key.next == vals[FirstMatch(name, keys)];
        val := key.next;
      }
    }
  }

  lemma AddedDistinct(keys: seq<MutVal>, vals: seq<MutVal>, key: MutVal, val: MutVal)
    requires |keys| == |vals| && Distinct(keys + vals)
    requires key !in keys + vals && val !in keys + vals && key != val
    ensures Distinct(keys + [key] + (vals + [val])) && key !in keys && key !in vals && val !in keys && val !in vals
    ensures vals != [] ==> vals[|vals| - 1] !in keys && vals[|vals| - 1] !in vals[..|vals| - 1]
  {
    WheelParts(keys, vals);
    WheelParts(keys + [key], vals + [val]);
  }

  /** `unsafe_yyjson_mut_obj_add`. */
  method Link(obj: MutVal, key: MutVal, val: MutVal, len: nat, ghost keys: seq<MutVal>, ghost vals: seq<MutVal>)
    requires IsObject(obj, keys, vals) && len == |keys|
    requires key !in keys + vals && val !in keys + vals && key != val
    modifies obj`len, obj`ptr, Elements(vals)`next, key`next, val`next
    ensures IsObject(obj, keys + [key], vals + [val])
  {
    AddedDistinct(keys, vals, key, val);
    hide Distinct;
    if len > 0 {
      var prevVal: MutVal := obj.ptr.next;
      var nextKey := prevVal.next;
      prevVal.next := key;
      val.next := nextKey;
    } else {
      val.next := key;
    }
    key.next := val;
    obj.ptr := key;
    obj.len := len + 1;
  }

  lemma PairsWithout(keys: seq<MutVal>, vals: seq<MutVal>, k: nat)
    requires |keys| == |vals| && k < |keys| && Distinct(keys + vals)
    ensures Distinct(Without(keys, k) + Without(vals, k))
    ensures forall i :: 0 <= i < |vals| && i != (if k == 0 then |vals| - 1 else k - 1) ==> vals[i] != Before(vals, k)
    ensures forall i :: 0 <= i < |keys| ==> keys[i] != Before(vals, k)
  {
    WheelParts(keys, vals);
    var ks, vs := Without(keys, k), Without(vals, k);
    assert forall i :: 0 <= i < |ks| ==> ks[i] == keys[if i < k then i else i + 1];
    assert forall i :: 0 <= i < |vs| ==> vs[i] == vals[if i < k then i else i + 1];
    WheelParts(ks, vs);
  }

  /** Take pair `k` out of the ring: the pair before it gets a new following key. */
  method Unlink(pre: MutVal, next: MutVal, ghost k: nat, ghost keys: seq<MutVal>, ghost vals: seq<MutVal>)
    requires Wheel(keys, vals) && k < |keys| && pre == Before(keys, k) && next == After(keys, k + 1)
    modifies Elements(vals)`next
    ensures Wheel(Without(keys, k), Without(vals, k))
  {
    hide Distinct;
    ghost var ks, vs := Without(keys, k), Without(vals, k);
    PairsWithout(keys, vals, k);
    assert pre.next == Before(vals, k);
    pre.next.next := next;
    forall i | 0 <= i < |ks| ensures ks[i].next == vs[i] {
      assert ks[i] == keys[if i < k then i else i + 1] && vs[i] == vals[if i < k then i else i + 1];
    }
    forall i | 0 <= i < |vs| - 1 ensures vs[i].next == ks[i + 1] {
      assert vs[i] == vals[if i < k then i else i + 1] && ks[i + 1] == keys[if i + 1 < k then i + 1 else i + 2];
    }
  }

  // ---- removing every pair of a name ----

  /** Removal has reached position `i` of what is left, `keys` and `vals`. */
  ghost predicate Removing(name: string, keys0: seq<MutVal>, vals0: seq<MutVal>, keys: seq<MutVal>, vals: seq<MutVal>,
                           i: nat)
    requires |keys0| == |vals0|
    reads Elements(keys0)`kind, Elements(keys0)`str, Elements(keys)`kind, Elements(keys)`str
  {
    && |keys| == |vals| && i <= |keys|
    && keys[..i] + KeptKeys(name, keys[i..]) == KeptKeys(name, keys0)
    && vals[..i] + KeptVals(name, keys[i..], vals[i..]) == KeptVals(name, keys0, vals0)
    && Elements(keys) <= Elements(keys0) && Elements(vals) <= Elements(vals0)
  }

  lemma RemovingSkips(name: string, keys0: seq<MutVal>, vals0: seq<MutVal>, keys: seq<MutVal>, vals: seq<MutVal>,
                      i: nat)
    requires |keys0| == |vals0| && Removing(name, keys0, vals0, keys, vals, i)
    requires i < |keys| && !Matches(keys[i], name)
    ensures Removing(name, keys0, vals0, keys, vals, i + 1)
  {
    assert keys[i..][0] == keys[i] && keys[i..][1..] == keys[i + 1..];
    assert vals[i..][0] == vals[i] && vals[i..][1..] == vals[i + 1..];
    assert keys[..i + 1] == keys[..i] + [keys[i]] && vals[..i + 1] == vals[..i] + [vals[i]];
  }

  lemma RemovingDrops(name: string, keys0: seq<MutVal>, vals0: seq<MutVal>, keys: seq<MutVal>, vals: seq<MutVal>,
                      i: nat)
    requires |keys0| == |vals0| && Removing(name, keys0, vals0, keys, vals, i)
    requires i < |keys| && Matches(keys[i], name)
    ensures Removing(name, keys0, vals0, Without(keys, i), Without(vals, i), i)
  {
    assert keys[i..][0] == keys[i] && keys[i..][1..] == keys[i + 1..];
    assert vals[i..][0] == vals[i] && vals[i..][1..] == vals[i + 1..];
    assert Without(keys, i)[i..] == keys[i + 1..] && Without(vals, i)[i..] == vals[i + 1..];
    assert Without(keys, i)[..i] == keys[..i] && Without(vals, i)[..i] == vals[..i];
    assert forall x :: x in Without(keys, i) ==> x in keys;
    assert forall x :: x in Without(vals, i) ==> x in vals;
  }

  lemma RemovingStarts(name: string, keys: seq<MutVal>, vals: seq<MutVal>)
    requires |keys| == |vals|
    ensures Removing(name, keys, vals, keys, vals, 0)
  {
    assert keys[0..] == keys && vals[0..] == vals;
  }

  lemma RemovingEnds(name: string, keys0: seq<MutVal>, vals0: seq<MutVal>, keys: seq<MutVal>, vals: seq<MutVal>)
    requires |keys0| == |vals0| && Removing(name, keys0, vals0, keys, vals, |keys|)
    ensures keys == KeptKeys(name, keys0) && vals == KeptVals(name, keys0, vals0)
  {
    assert keys[|keys|..] == [] && keys[..|keys|] == keys && vals[..|vals|] == vals;
  }

  /** The ring while `unsafe_yyjson_mut_obj_remove` walks it: `pre` and `cur` are the keys around
      position `i`, and the object points at the last key. */
  ghost predicate Walking(obj: MutVal, pre: MutVal, cur: MutVal, i: nat, keys: seq<MutVal>, vals: seq<MutVal>)
    reads obj`ptr, Elements(keys)`next, Elements(vals)`next
  {
    && Wheel(keys, vals) && i <= |keys|
    && (keys != [] ==> pre == Before(keys, i) && cur == After(keys, i) && obj.ptr == keys[|keys| - 1])
  }

  lemma WalkingParts(obj: MutVal, pre: MutVal, cur: MutVal, i: nat, keys: seq<MutVal>, vals: seq<MutVal>)
    requires Walking(obj, pre, cur, i, keys, vals) && i < |keys|
    ensures Wheel(keys, vals) && |keys| == |vals| && keys != []
    ensures pre == Before(keys, i) && cur.next != null && cur.next.next == After(keys, i + 1)
    ensures obj.ptr == keys[|keys| - 1]
  {
    assert keys[i].next == vals[i] && vals[i].next == After(keys, i + 1);
  }

  /** The positions around pair `i` once it is gone. */
  lemma Dropped(obj: MutVal, pre: MutVal, next: MutVal, i: nat, keys: seq<MutVal>, vals: seq<MutVal>)
    requires i < |keys| == |vals| && Wheel(Without(keys, i), Without(vals, i))
    requires pre == Before(keys, i) && next == After(keys, i + 1)
    requires obj.ptr == if i + 1 == |keys| then pre else keys[|keys| - 1]
    ensures Walking(obj, pre, next, i, Without(keys, i), Without(vals, i))
  {}

  /** A matching round of the loop: the pair at `i` leaves the ring. */
  method Drop(obj: MutVal, pre: MutVal, cur: MutVal, i: nat, objLen: nat, ghost keys: seq<MutVal>,
              ghost vals: seq<MutVal>)
    returns (next: MutVal)
    requires Walking(obj, pre, cur, i, keys, vals) && i < objLen == |keys|
    modifies obj`ptr, Elements(vals)`next
    ensures Walking(obj, pre, next, i, Without(keys, i), Without(vals, i))
  {
    WalkingParts(obj, pre, cur, i, keys, vals);
    hide *;
    next := cur.next.next;
    Unlink(pre, next, i, keys, vals);
    if i + 1 == objLen {
      obj.ptr := pre;
    }
    Dropped(obj, pre, next, i, keys, vals);
  }

  /** A round that does not match. */
  method Step(obj: MutVal, pre: MutVal, cur: MutVal, i: nat, ghost keys: seq<MutVal>, ghost vals: seq<MutVal>)
    returns (pre': MutVal, cur': MutVal)
    requires Walking(obj, pre, cur, i, keys, vals) && i < |keys|
    ensures Walking(obj, pre', cur', i + 1, keys, vals)
  {
    assert keys[i].next == vals[i] && vals[i].next == After(keys, i + 1);
    pre' := cur;
    cur' := cur.next.next;
  }

  /** `removed` is the value of the first pair that matched, which is pair `first` of the object; until
      there is one, nothing has changed. */
  ghost predicate FirstFound(first: nat, removed: MutVal?, keys0: seq<MutVal>, vals0: seq<MutVal>,
                             keys: seq<MutVal>, vals: seq<MutVal>, i: nat)
  {
    && (removed == null ==> keys == keys0 && vals == vals0 && first >= i)
    && (removed != null ==> first < |keys0| == |vals0| && removed == vals0[first])
  }

  lemma FirstFoundStep(name: string, first: nat, removed: MutVal?, keys0: seq<MutVal>, vals0: seq<MutVal>,
                       keys: seq<MutVal>, vals: seq<MutVal>, i: nat)
    requires FirstFound(first, removed, keys0, vals0, keys, vals, i) && first == FirstMatch(name, keys0)
    requires i < |keys| == |vals| && |keys0| == |vals0|
    ensures Matches(keys[i], name) ==>
              FirstFound(first, if removed == null then vals[i] else removed, keys0, vals0,
                         Without(keys, i), Without(vals, i), i)
    ensures !Matches(keys[i], name) ==> FirstFound(first, removed, keys0, vals0, keys, vals, i + 1)
  {}

  lemma PairAt(obj: MutVal, pre: MutVal, cur: MutVal, i: nat, keys: seq<MutVal>, vals: seq<MutVal>)
    requires Walking(obj, pre, cur, i, keys, vals) && i < |keys|
    ensures |keys| == |vals| && cur == keys[i] && cur.next == vals[i]
  {}

  lemma SubsetOf(name: string, keys0: seq<MutVal>, vals0: seq<MutVal>, keys: seq<MutVal>, vals: seq<MutVal>, i: nat)
    requires |keys0| == |vals0| && Removing(name, keys0, vals0, keys, vals, i)
    ensures Elements(keys) <= Elements(keys0) && Elements(vals) <= Elements(vals0)
  {}

  /** One round of the loop. */
  method Round(obj: MutVal, name: string, pre: MutVal, cur: MutVal, i: nat, objLen: nat, removed0: MutVal?,
               ghost first: nat, ghost keys0: seq<MutVal>, ghost vals0: seq<MutVal>,
               ghost keys: seq<MutVal>, ghost vals: seq<MutVal>)
    returns (pre': MutVal, cur': MutVal, i': nat, objLen': nat, removed: MutVal?,
             ghost keys': seq<MutVal>, ghost vals': seq<MutVal>)
    requires i < objLen == |keys| == |vals| && |keys0| == |vals0|
    requires Walking(obj, pre, cur, i, keys, vals) && Removing(name, keys0, vals0, keys, vals, i)
    requires FirstFound(first, removed0, keys0, vals0, keys, vals, i) && first == FirstMatch(name, keys0)
    modifies obj`ptr, Elements(vals0)`next
    ensures i' <= objLen' == |keys'| == |vals'| && objLen' - i' < objLen - i
    ensures Walking(obj, pre', cur', i', keys', vals') && Removing(name, keys0, vals0, keys', vals', i')
    ensures FirstFound(first, removed, keys0, vals0, keys', vals', i')
  {
    hide Removing, Walking, Wheel, KeptKeys, KeptVals, FirstMatch, FirstFound, Matches, Distinct;
    SubsetOf(name, keys0, vals0, keys, vals, i);
    PairAt(obj, pre, cur, i, keys, vals);
    FirstFoundStep(name, first, removed0, keys0, vals0, keys, vals, i);
    removed := removed0;
    if Matches(cur, name) {
      if removed == null { removed := cur.next; }
      RemovingDrops(name, keys0, vals0, keys, vals, i);
      pre', cur', i', objLen' := pre, cur, i, objLen - 1;
      keys', vals' := Without(keys, i), Without(vals, i);
      cur' := Drop(obj, pre, cur, i, objLen, keys, vals);
    } else {
      RemovingSkips(name, keys0, vals0, keys, vals, i);
      i', objLen', keys', vals' := i + 1, objLen, keys, vals;
      pre', cur' := Step(obj, pre, cur, i, keys, vals);
    }
  }

  lemma FirstFoundStarts(name: string, first: nat, keys: seq<MutVal>, vals: seq<MutVal>)
    requires |keys| == |vals| && first == FirstMatch(name, keys)
    ensures FirstFound(first, null, keys, vals, keys, vals, 0)
  {}

  lemma FirstFoundEnds(name: string, first: nat, removed: MutVal?, keys0: seq<MutVal>, vals0: seq<MutVal>,
                       keys: seq<MutVal>, vals: seq<MutVal>, i: nat)
    requires FirstFound(first, removed, keys0, vals0, keys, vals, i) && first == FirstMatch(name, keys0)
    requires i == |keys| && |keys0| == |vals0|
    ensures removed == if first < |keys0| then vals0[first] else null
  {}

  lemma RoundsEnd(obj: MutVal, name: string, pre: MutVal, cur: MutVal, first: nat, removed: MutVal?,
                  keys0: seq<MutVal>, vals0: seq<MutVal>, keys: seq<MutVal>, vals: seq<MutVal>, i: nat)
    requires i == |keys| && |keys0| == |vals0| && first == FirstMatch(name, keys0)
    requires Walking(obj, pre, cur, i, keys, vals) && Removing(name, keys0, vals0, keys, vals, i)
    requires FirstFound(first, removed, keys0, vals0, keys, vals, i)
    ensures keys == KeptKeys(name, keys0) && vals == KeptVals(name, keys0, vals0)
    ensures Wheel(keys, vals) && (keys != [] ==> obj.ptr == keys[|keys| - 1])
    ensures removed == if first < |keys0| then vals0[first] else null
  {
    RemovingEnds(name, keys0, vals0, keys, vals);
    FirstFoundEnds(name, first, removed, keys0, vals0, keys, vals, i);
  }

  /** The loop. */
  method Rounds(obj: MutVal, name: string, pre0: MutVal, cur0: MutVal, len0: nat, ghost first: nat,
                ghost keys0: seq<MutVal>, ghost vals0: seq<MutVal>)
    returns (removed: MutVal?, objLen: nat, ghost keys: seq<MutVal>, ghost vals: seq<MutVal>)
    requires len0 == |keys0| == |vals0| && first == FirstMatch(name, keys0)
    requires Walking(obj, pre0, cur0, 0, keys0, vals0) && Removing(name, keys0, vals0, keys0, vals0, 0)
    modifies obj`ptr, Elements(vals0)`next
    ensures objLen == |keys| && keys == old(KeptKeys(name, keys0)) && vals == old(KeptVals(name, keys0, vals0))
    ensures Wheel(keys, vals) && (keys != [] ==> obj.ptr == keys[|keys| - 1])
    ensures removed == if first < |keys0| then vals0[first] else null
  {
    hide Walking, Wheel, FirstMatch, FirstFound, Matches, Distinct;
    removed, objLen, keys, vals := null, len0, keys0, vals0;
    var pre, cur, i := pre0, cur0, 0;
    FirstFoundStarts(name, first, keys0, vals0);
    while i < objLen
      invariant 0 <= i <= objLen == |keys| == |vals|
      invariant Walking(obj, pre, cur, i, keys, vals)
      invariant Removing(name, keys0, vals0, keys, vals, i)
      invariant FirstFound(first, removed, keys0, vals0, keys, vals, i)
      invariant first == FirstMatch(name, keys0)
      invariant KeptKeys(name, keys0) == old(KeptKeys(name, keys0))
      invariant KeptVals(name, keys0, vals0) == old(KeptVals(name, keys0, vals0))
      decreases objLen - i
    {
      pre, cur, i, objLen, removed, keys, vals :=
        Round(obj, name, pre, cur, i, objLen, removed, first, keys0, vals0, keys, vals);
    }
    RoundsEnd(obj, name, pre, cur, first, removed, keys0, vals0, keys, vals, i);
  }

  method SetLen(obj: MutVal, len: nat, ghost keys: seq<MutVal>, ghost vals: seq<MutVal>)
    requires obj.kind == Obj && len == |keys|
    requires Wheel(keys, vals) && (keys != [] ==> obj.ptr == keys[|keys| - 1])
    modifies obj`len
    ensures IsObject(obj, keys, vals)
  {
    obj.len := len;
  }

  lemma WalkingStarts(obj: MutVal, keys: seq<MutVal>, vals: seq<MutVal>)
    requires IsObject(obj, keys, vals) && keys != []
    ensures |keys| == |vals| && obj.ptr != null && obj.ptr.next != null && obj.ptr.next.next != null
    ensures Walking(obj, obj.ptr, obj.ptr.next.next, 0, keys, vals)
  {
    assert keys[|keys| - 1].next == vals[|vals| - 1] && vals[|vals| - 1].next == keys[0];
  }

  /** `unsafe_yyjson_mut_obj_remove`: every pair of this name is taken out of the ring. */
  method RemoveAll(obj: MutVal, name: string, ghost keys0: seq<MutVal>, ghost vals0: seq<MutVal>)
    returns (removed: MutVal?, ghost keys: seq<MutVal>, ghost vals: seq<MutVal>)
    requires IsObject(obj, keys0, vals0)
    modifies obj`len, obj`ptr, Elements(vals0)`next
    ensures keys == old(KeptKeys(name, keys0)) && vals == old(KeptVals(name, keys0, vals0))
    ensures IsObject(obj, keys, vals)
    ensures removed == old(Lookup(name, keys0, vals0))
  {
    var objLen := obj.len;
    if objLen == 0 {
      removed, keys, vals := null, keys0, vals0;
    } else {
      RemovingStarts(name, keys0, vals0);
      WalkingStarts(obj, keys0, vals0);
      hide *;
      var pre: MutVal := obj.ptr;
      var cur: MutVal := pre.next.next;
      ghost var first := FirstMatch(name, keys0);
      removed, objLen, keys, vals := Rounds(obj, name, pre, cur, objLen, first, keys0, vals0);
      SetLen(obj, objLen, keys, vals);
    }
  }

  // ---- what removal keeps ----

  /** No key of this name is left. */
  lemma {:induction false} NoneLeft(name: string, keys: seq<MutVal>)
    ensures FirstMatch(name, KeptKeys(name, keys)) == |KeptKeys(name, keys)|
  {
    if keys == [] {
    } else {
      NoneLeft(name, keys[1..]);
      var rest := KeptKeys(name, keys[1..]);
      if !Matches(keys[0], name) {
        assert ([keys[0]] + rest)[1..] == rest;
      } else {
        assert [] + rest == rest;
      }
    }
  }

  /** Removing one name leaves what is found under every other name as it was. */
  lemma {:induction false} OthersKept(name: string, other: string, keys: seq<MutVal>, vals: seq<MutVal>)
    requires |keys| == |vals| && other != name
    ensures |KeptKeys(name, keys)| == |KeptVals(name, keys, vals)|
    ensures Lookup(other, KeptKeys(name, keys), KeptVals(name, keys, vals)) == Lookup(other, keys, vals)
  {
    if keys == [] {
    } else {
      OthersKept(name, other, keys[1..], vals[1..]);
      var ks, vs := KeptKeys(name, keys[1..]), KeptVals(name, keys[1..], vals[1..]);
      if !Matches(keys[0], name) {
        assert ([keys[0]] + ks)[1..] == ks && ([vals[0]] + vs)[1..] == vs;
      } else {
        assert [] + ks == ks && [] + vs == vs;
      }
    }
  }

  lemma {:induction false} FirstMatchAppend(name: string, keys: seq<MutVal>, key: MutVal)
    ensures FirstMatch(name, keys + [key]) ==
            if FirstMatch(name, keys) < |keys| then FirstMatch(name, keys)
            else if Matches(key, name) then |keys| else |keys| + 1
  {
    if keys == [] {
    } else {
      FirstMatchAppend(name, keys[1..], key);
      assert (keys + [key])[1..] == keys[1..] + [key];
    }
  }

  lemma {:induction false} KeptLengths(name: string, keys: seq<MutVal>, vals: seq<MutVal>)
    requires |keys| == |vals|
    ensures |KeptKeys(name, keys)| == |KeptVals(name, keys, vals)|
    ensures Elements(KeptKeys(name, keys)) <= Elements(keys) && Elements(KeptVals(name, keys, vals)) <= Elements(vals)
  {
    if keys == [] {
    } else {
      KeptLengths(name, keys[1..], vals[1..]);
      forall x | x in KeptKeys(name, keys) ensures x in keys {
        assert x == keys[0] || x in Elements(KeptKeys(name, keys[1..]));
      }
      forall x | x in KeptVals(name, keys, vals) ensures x in vals {
        assert x == vals[0] || x in Elements(KeptVals(name, keys[1..], vals[1..]));
      }
    }
  }

  /** What `Put` leaves behind is the update of a map: the new value under the new key, and every
      other name as before. */
  lemma PutUpdates(key: MutVal, val: MutVal, other: string, keys: seq<MutVal>, vals: seq<MutVal>)
    requires |keys| == |vals| && key.kind == Str
    ensures |KeptKeys(key.str, keys)| == |KeptVals(key.str, keys, vals)|
    ensures Lookup(other, KeptKeys(key.str, keys) + [key], KeptVals(key.str, keys, vals) + [val])
            == if other == key.str then val else Lookup(other, keys, vals)
  {
    var ks, vs := KeptKeys(key.str, keys), KeptVals(key.str, keys, vals);
    KeptLengths(key.str, keys, vals);
    FirstMatchAppend(other, ks, key);
    if other == key.str {
      NoneLeft(key.str, keys);
    } else {
      OthersKept(key.str, other, keys, vals);
    }
  }

  predicate IsStr(key: MutVal?) reads key {
    key != null && key.kind == Str
  }

  /** Add a pair that is new to a larger object. */
  method AddTo(obj: MutVal, key: MutVal, val: MutVal, ghost keys0: seq<MutVal>, ghost vals0: seq<MutVal>,
               ghost keys: seq<MutVal>, ghost vals: seq<MutVal>)
    returns (ghost keys': seq<MutVal>, ghost vals': seq<MutVal>)
    requires IsObject(obj, keys, vals)
    requires Elements(keys) <= Elements(keys0) && Elements(vals) <= Elements(vals0)
    requires key != val && key !in keys0 + vals0 && val !in keys0 + vals0
    modifies obj`len, obj`ptr, Elements(vals0)`next, key`next, val`next
    ensures keys' == keys + [key] && vals' == vals + [val] && IsObject(obj, keys', vals')
  {
    assert key !in Elements(vals0) && key !in Elements(keys0) && val !in Elements(keys0) && val !in Elements(vals0);
    assert key !in Elements(keys) && key !in Elements(vals) && val !in Elements(keys) && val !in Elements(vals);
    assert |keys| == obj.len;
    hide Wheel;
    Link(obj, key, val, obj.len, keys, vals);
    keys', vals' := keys + [key], vals + [val];
  }

  /** `yyjson_mut_obj_put`: every pair of the key's name goes, then the new pair is added at the end. */
  method Put(obj: MutVal?, key: MutVal?, val: MutVal?, ghost keys0: seq<MutVal>, ghost vals0: seq<MutVal>)
    returns (ok: bool, ghost keys: seq<MutVal>, ghost vals: seq<MutVal>)
    requires IsObj(obj) ==> IsObject(obj, keys0, vals0)
    requires key != val && (key != null ==> key !in keys0 + vals0) && (val != null ==> val !in keys0 + vals0)
    modifies Only(obj)`len, Only(obj)`ptr, Elements(vals0)`next, Only(key)`next, Only(val)`next
    ensures ok <==> IsObj(obj) && IsStr(key)
    ensures ok && val == null ==> keys == old(KeptKeys(key.str, keys0)) && vals == old(KeptVals(key.str, keys0, vals0))
    ensures ok && val != null ==>
              keys == old(KeptKeys(key.str, keys0)) + [key] && vals == old(KeptVals(key.str, keys0, vals0)) + [val]
    ensures !ok ==> keys == keys0 && vals == vals0
    ensures IsObj(obj) ==> IsObject(obj, keys, vals)
  {
    ok, keys, vals := false, keys0, vals0;
    assert IsObj(obj) ==> |keys0| == |vals0|;
    hide Wheel, KeptKeys, KeptVals, FirstMatch, Distinct;
    if obj != null && key != null && obj.kind == Obj && key.kind == Str {
      KeptLengths(key.str, keys0, vals0);
      var removed;
      removed, keys, vals := RemoveAll(obj, key.str, keys0, vals0);
      if val != null {
        keys, vals := AddTo(obj, key, val, keys0, vals0, keys, vals);
      }
      ok := true;
    }
  }

  // ---- rotation and insertion ----

  lemma RotatedPairs(keys: seq<MutVal>, vals: seq<MutVal>, k: nat)
    requires |keys| == |vals| && Distinct(keys + vals) && k <= |keys|
    ensures Distinct(Rotated(keys, k) + Rotated(vals, k))
  {
    var ks, vs := Rotated(keys, k), Rotated(vals, k);
    var n := |keys|;
    assert forall i :: 0 <= i < n ==> ks[i] == keys[if i < n - k then i + k else i - (n - k)];
    assert forall i :: 0 <= i < n ==> vs[i] == vals[if i < n - k then i + k else i - (n - k)];
    WheelParts(keys, vals);
    WheelParts(ks, vs);
  }

  lemma WheelRotated(keys: seq<MutVal>, vals: seq<MutVal>, k: nat)
    requires Wheel(keys, vals) && k <= |keys|
    ensures Wheel(Rotated(keys, k), Rotated(vals, k))
  {
    RotatedPairs(keys, vals, k);
    hide Distinct;
    var ks, vs := Rotated(keys, k), Rotated(vals, k);
    var n := |keys|;
    forall i | 0 <= i < n ensures ks[i].next == vs[i] {
      if i < n - k { assert ks[i] == keys[i + k]; } else { assert ks[i] == keys[i - (n - k)]; }
    }
    forall i | 0 <= i < n - 1 ensures vs[i].next == ks[i + 1] {
      if i == n - k - 1 { assert vals[n - 1].next == keys[0]; }
    }
  }

  /** `unsafe_yyjson_mut_obj_rotate`: the object points at the key before position `idx`. */
  method Rotate(obj: MutVal, idx: nat, ghost keys: seq<MutVal>, ghost vals: seq<MutVal>)
    requires IsObject(obj, keys, vals) && idx < |keys|
    modifies obj`ptr
    ensures IsObject(obj, Rotated(keys, idx), Rotated(vals, idx))
    ensures obj.ptr == Before(keys, idx)
  {
    var key: MutVal := obj.ptr;
    var n := idx;
    while n > 0
      invariant 0 <= n <= idx && key == Before(keys, idx - n)
    {
      assert key.next.next == After(keys, idx - n) by {
        var j := if idx - n == 0 then |keys| - 1 else idx - n - 1;
        assert keys[j].next == vals[j];
      }
      n := n - 1;
      key := key.next.next;
    }
    WheelRotated(keys, vals, idx);
    hide Wheel;
    obj.ptr := key;
  }

  /** `yyjson_mut_obj_rotate`. */
  method RotatePairs(obj: MutVal?, idx: nat, ghost keys: seq<MutVal>, ghost vals: seq<MutVal>) returns (ok: bool)
    requires IsObj(obj) ==> IsObject(obj, keys, vals)
    modifies Only(obj)`ptr
    ensures ok <==> IsObj(obj) && idx < |keys|
    ensures IsObj(obj) && |keys| == |vals| ==>
              IsObject(obj, if ok then Rotated(keys, idx) else keys, if ok then Rotated(vals, idx) else vals)
  {
    ok := false;
    if obj != null && obj.kind == Obj && obj.len > idx {
      Rotate(obj, idx, keys, vals);
      ok := true;
    }
  }

  /** Adding at the end after a rotation, then turning back, is insertion at that position. */
  lemma InsertionByRotation<T>(s: seq<T>, idx: nat, x: T)
    requires idx <= |s|
    ensures Rotated(Rotated(s, idx) + [x], |s| - idx) == InsertAt(s, idx, x)
  {}

  /** Point the object at its last key again. */
  method Restore(obj: MutVal, last: MutVal, idx: nat, key: MutVal, val: MutVal, ghost keys: seq<MutVal>,
                 ghost vals: seq<MutVal>)
    requires |keys| == |vals| && idx < |keys| && last == keys[|keys| - 1]
    requires IsObject(obj, Rotated(keys, idx) + [key], Rotated(vals, idx) + [val])
    modifies obj`ptr
    ensures IsObject(obj, InsertAt(keys, idx, key), InsertAt(vals, idx, val))
  {
    WheelRotated(Rotated(keys, idx) + [key], Rotated(vals, idx) + [val], |keys| - idx);
    InsertionByRotation(keys, idx, key);
    InsertionByRotation(vals, idx, val);
    hide Wheel;
    obj.ptr := last;
  }

  /** Insertion before another pair: turn, add, turn back. */
  method InsertTurned(obj: MutVal, key: MutVal, val: MutVal, idx: nat, ghost keys: seq<MutVal>, ghost vals: seq<MutVal>)
    requires IsObject(obj, keys, vals) && idx < |keys|
    requires key !in keys + vals && val !in keys + vals && key != val
    modifies obj`len, obj`ptr, Elements(vals)`next, key`next, val`next
    ensures IsObject(obj, InsertAt(keys, idx, key), InsertAt(vals, idx, val))
  {
    var ptr: MutVal := obj.ptr;
    Rotate(obj, idx, keys, vals);
    hide Wheel;
    Link(obj, key, val, obj.len, Rotated(keys, idx), Rotated(vals, idx));
    Restore(obj, ptr, idx, key, val, keys, vals);
  }

  /** `yyjson_mut_obj_insert`. */
  method Insert(obj: MutVal?, key: MutVal?, val: MutVal?, idx: nat, ghost keys: seq<MutVal>, ghost vals: seq<MutVal>)
    returns (ok: bool)
    requires IsObj(obj) ==> IsObject(obj, keys, vals)
    requires key != val && (key != null ==> key !in keys + vals) && (val != null ==> val !in keys + vals)
    modifies Only(obj)`len, Only(obj)`ptr, Elements(vals)`next, Only(key)`next, Only(val)`next
    ensures ok <==> IsObj(obj) && IsStr(key) && val != null && idx <= |keys|
    ensures IsObj(obj) && |keys| == |vals| ==>
              IsObject(obj, if ok then InsertAt(keys, idx, key) else keys,
                       if ok then InsertAt(vals, idx, val) else vals)
  {
    ok := false;
    if obj != null && key != null && val != null && obj.kind == Obj && key.kind == Str {
      var len := obj.len;
      if len >= idx {
        if len > idx {
          InsertTurned(obj, key, val, idx, keys, vals);
        } else {
          hide Wheel;
          Link(obj, key, val, len, keys, vals);
          assert InsertAt(keys, idx, key) == keys + [key] && InsertAt(vals, idx, val) == vals + [val];
        }
        ok := true;
      }
    }
  }

  // ---- overwriting ----

  predicate Holds(v: MutVal, kind: Kind, len: nat, str: string, ptr: MutVal?)
    reads v`kind, v`len, v`str, v`ptr
  {
    v.kind == kind && v.len == len && v.str == str && v.ptr == ptr
  }

  /** Copy tag and payload. */
  method Overwrite(v: MutVal, val: MutVal)
    modifies v`kind, v`len, v`str, v`ptr
    ensures Holds(v, old(val.kind), old(val.len), old(val.str), old(val.ptr))
  {
    v.kind, v.len, v.str, v.ptr := val.kind, val.len, val.str, val.ptr;
  }

  /** `yyjson_mut_obj_replace`: the first value of this name takes over tag and payload of `val`; no link
      of the ring changes. */
  method Replace(obj: MutVal?, key: MutVal?, val: MutVal?, ghost keys: seq<MutVal>, ghost vals: seq<MutVal>)
    returns (ok: bool)
    requires IsObj(obj) ==> IsObject(obj, keys, vals) && obj !in vals
    modifies Elements(vals)`kind, Elements(vals)`len, Elements(vals)`str, Elements(vals)`ptr
    ensures ok <==> IsObj(obj) && old(IsStr(key)) && val != null && FirstMatch(old(key.str), keys) < |keys|
    ensures IsObj(obj) ==> IsObject(obj, keys, vals)
    ensures ok ==>
              && |keys| == |vals|
              && Holds(vals[FirstMatch(old(key.str), keys)], old(val.kind), old(val.len), old(val.str), old(val.ptr))
    ensures forall v :: v in vals && !(ok && v == vals[FirstMatch(old(key.str), keys)]) ==> unchanged(v)
  {
    ok := false;
    if obj != null && key != null && val != null && obj.kind == Obj && key.kind == Str && obj.len > 0 {
      var cur := Seek(obj, key.str, keys, vals);
      if cur != null {
        assert cur.next == vals[FirstMatch(key.str, keys)];
        WheelParts(keys, vals);
        hide FirstMatch;
        Overwrite(cur.next, val);
        ok := true;
      }
    }
  }
}
