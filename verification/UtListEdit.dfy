/** Where ordered insertion puts a new element, for both kinds of list. */
module ListOrder {
  import opened ListNodes
  import opened Sequences
  import opened StableSort

  /** The first element not less than `like`, or the length. */
  function LowerBound<T>(cmp: (T, T) -> int, s: seq<Node<T>>, like: T): (k: nat)
    ensures k <= |s| && (k < |s| ==> cmp(s[k].elt, like) >= 0)
    ensures forall i :: 0 <= i < k ==> cmp(s[i].elt, like) < 0
  {
    if s == [] || cmp(s[0].elt, like) >= 0 then 0 else 1 + LowerBound(cmp, s[1..], like)
  }

  lemma {:induction false} LowerBoundIs<T>(cmp: (T, T) -> int, s: seq<Node<T>>, like: T, k: nat)
    requires k <= |s| && (k < |s| ==> cmp(s[k].elt, like) >= 0)
    requires forall i :: 0 <= i < k ==> cmp(s[i].elt, like) < 0
    ensures k == LowerBound(cmp, s, like)
  {
    if k == 0 {
    } else {
      assert cmp(s[0].elt, like) < 0;
      assert forall i :: 0 <= i < k - 1 ==> s[1..][i] == s[i + 1];
      LowerBoundIs(cmp, s[1..], like, k - 1);
    }
  }

  /** Ordered insertion keeps a sorted list sorted, before the elements the new one is equivalent to. */
  lemma InsertedSorted<T(!new)>(cmp: (T, T) -> int, s: seq<Node<T>>, add: Node<T>)
    requires Preorder(cmp) && Sorted(Elt, cmp, s)
    ensures Sorted(Elt, cmp, InsertAt(s, LowerBound(cmp, s, add.elt), add))
    ensures forall i :: 0 <= i < |s| && Equivalent(cmp, s[i].elt, add.elt) ==> i >= LowerBound(cmp, s, add.elt)
  {
    var k := LowerBound(cmp, s, add.elt);
    forall i | k <= i < |s| ensures cmp(Elt(add), Elt(s[i])) <= 0 {
      assert cmp(Elt(add), Elt(s[k])) <= 0;
      assert i == k || cmp(Elt(s[k]), Elt(s[i])) <= 0;
    }
    SortedInsert(Elt, cmp, s, k, add);
    forall i | 0 <= i < k ensures !Equivalent(cmp, s[i].elt, add.elt) {
      var a, b := s[i].elt, add.elt;
      assert cmp(a, b) < 0;
      assert cmp(b, a) <= 0 <==> cmp(a, b) >= 0;
    }
  }

  lemma FirstInserted<T>(cmp: (T, T) -> int, s: seq<Node<T>>, add: Node<T>)
    requires s == []
    ensures LowerBound(cmp, s, add.elt) == 0 && InsertAt(s, 0, add) == [add]
  {}

  lemma Apart<T>(s: seq<Node<T>>, t: seq<Node<T>>)
    requires NoDup(s + t)
    ensures forall i, j :: 0 <= i < |s| && 0 <= j < |t| ==> s[i] != t[j]
  {
    forall i, j | 0 <= i < |s| && 0 <= j < |t| ensures s[i] != t[j] {
      assert (s + t)[i] == s[i] && (s + t)[|s| + j] == t[j];
    }
  }

  /** Where the nodes are after an insertion. */
  lemma Inserted<T>(s: seq<Node<T>>, k: nat, add: Node<T>)
    requires NoDup(s) && add !in s && k <= |s|
    ensures var t := InsertAt(s, k, add);
            && NoDup(t) && |t| == |s| + 1 && t[k] == add
            && (forall i :: 0 <= i < k ==> t[i] == s[i])
            && (forall i :: k < i < |t| ==> t[i] == s[i - 1])
  {}

  ghost predicate At<T>(s: seq<Node<T>>, k: nat, el: Node?<T>) {
    k < |s| && s[k] == el
  }
}

/** `DL_*`: doubly linked lists whose head points back at the tail. Each macro's `head` argument is a
    parameter and a result here. */
module DoublyLinked {
  import opened ListNodes
  import opened ListOrder
  import opened Sequences
  import opened StableSort

  /** `DL_PREPEND2`. */
  method Prepend<T>(head0: Node?<T>, add: Node<T>, ghost s: seq<Node<T>>) returns (head: Node?<T>)
    requires DL(head0, s) && add !in s
    modifies add`prev, add`next, Nodes(s)`prev
    ensures DL(head, [add] + s)
  {
    add.next := head0;
    if head0 != null {
      add.prev := head0.prev;
      head0.prev := add;
    } else {
      add.prev := add;
    }
    head := add;
  }

  /** `DL_APPEND2`. */
  method Append<T>(head0: Node?<T>, add: Node<T>, ghost s: seq<Node<T>>) returns (head: Node?<T>)
    requires DL(head0, s) && add !in s
    modifies add`prev, add`next, Nodes(s)`prev, Nodes(s)`next
    ensures DL(head, s + [add])
  {
    head := head0;
    if head != null {
      add.prev := head.prev;
      head.prev.next := add;
      head.prev := add;
      add.next := null;
    } else {
      head := add;
      head.prev := head;
      head.next := null;
    }
  }

  /** `DL_CONCAT2`. */
  method Concat<T>(head10: Node?<T>, head2: Node?<T>, ghost s1: seq<Node<T>>, ghost s2: seq<Node<T>>)
    returns (head1: Node?<T>)
    requires DL(head10, s1) && DL(head2, s2) && NoDup(s1 + s2)
    modifies Nodes(s1)`prev, Nodes(s1)`next, Nodes(s2)`prev
    ensures DL(head1, s1 + s2)
  {
    head1 := head10;
    Apart(s1, s2);
    if head2 != null {
      if head1 != null {
        var last := head2.prev;
        head2.prev := head1.prev;
        head1.prev.next := head2;
        head1.prev := last;
      } else {
        assert s1 + s2 == s2;
        head1 := head2;
      }
    } else {
      assert s1 + s2 == s1;
    }
  }

  /** `DL_DELETE2`. */
  method Delete<T>(head0: Node<T>, del: Node<T>, ghost k: nat, ghost s: seq<Node<T>>) returns (head: Node?<T>)
    requires DL(head0, s) && At(s, k, del)
    modifies Nodes(s)`prev, Nodes(s)`next
    ensures DL(head, Without(s, k))
  {
    head := head0;
    assert del.prev == if k == 0 then s[|s| - 1] else s[k - 1];
    assert del.next == if k + 1 == |s| then null else s[k + 1];
    if del.prev == del {
      head := null;
    } else if del == head {
      del.next.prev := del.prev;
      head := del.next;
    } else {
      del.prev.next := del.next;
      if del.next != null {
        del.next.prev := del.prev;
      } else {
        head.prev := del.prev;
      }
    }
  }

  /** `DL_REPLACE_ELEM2`. */
  method ReplaceElem<T>(head0: Node<T>, el: Node<T>, add: Node<T>, ghost k: nat, ghost s: seq<Node<T>>)
    returns (head: Node<T>)
    requires DL(head0, s) && At(s, k, el) && add !in s
    modifies add`prev, add`next, Nodes(s)`prev, Nodes(s)`next
    ensures DL(head, s[k := add])
  {
    head := head0;
    assert el.prev == if k == 0 then s[|s| - 1] else s[k - 1];
    assert el.next == if k + 1 == |s| then null else s[k + 1];
    if head == el {
      head := add;
      add.next := el.next;
      if el.next == null {
        add.prev := add;
      } else {
        add.prev := el.prev;
        add.next.prev := add;
      }
    } else {
      add.next := el.next;
      add.prev := el.prev;
      add.prev.next := add;
      if el.next == null {
        head.prev := add;
      } else {
        add.next.prev := add;
      }
    }
  }

  /** The pointer writes of `DL_PREPEND_ELEM2`. */
  method LinkBefore<T>(head0: Node<T>, el: Node<T>, add: Node<T>, ghost k: nat, ghost s: seq<Node<T>>)
    returns (head: Node<T>)
    requires DL(head0, s) && add !in s && At(s, k, el)
    modifies add`prev, add`next, Nodes(s)`prev, Nodes(s)`next
    ensures DL(head, InsertAt(s, k, add))
  {
    hide InsertAt;
    Inserted(s, k, add);
    head := head0;
    assert el.prev == if k == 0 then s[|s| - 1] else s[k - 1];
    add.next := el;
    add.prev := el.prev;
    el.prev := add;
    if head == el {
      head := add;
    } else {
      add.prev.next := add;
    }
  }

  /** `DL_PREPEND_ELEM2`. */
  method PrependElem<T>(head0: Node?<T>, el: Node?<T>, add: Node<T>, ghost k: nat, ghost s: seq<Node<T>>)
    returns (head: Node?<T>)
    requires DL(head0, s) && add !in s && k <= |s| && el == if k == |s| then null else s[k]
    modifies add`prev, add`next, Nodes(s)`prev, Nodes(s)`next
    ensures DL(head, InsertAt(s, k, add))
  {
    head := head0;
    if el != null {
      head := LinkBefore(head, el, add, k, s);
    } else {
      assert InsertAt(s, k, add) == s + [add];
      head := Append(head, add, s);
    }
  }

  /** `DL_APPEND_ELEM2` behind a node. */
  method LinkAfter<T>(head: Node<T>, el: Node<T>, add: Node<T>, ghost k: nat, ghost s: seq<Node<T>>)
    requires DL(head, s) && add !in s && 0 < k <= |s| && el == s[k - 1]
    modifies add`prev, add`next, Nodes(s)`prev, Nodes(s)`next
    ensures DL(head, InsertAt(s, k, add))
  {
    hide InsertAt;
    Inserted(s, k, add);
    assert el.next == if k == |s| then null else s[k];
    add.next := el.next;
    add.prev := el;
    el.next := add;
    if add.next != null {
      add.next.prev := add;
    } else {
      head.prev := add;
    }
  }

  /** `DL_APPEND_ELEM2`. */
  method AppendElem<T>(head0: Node?<T>, el: Node?<T>, add: Node<T>, ghost k: nat, ghost s: seq<Node<T>>)
    returns (head: Node?<T>)
    requires DL(head0, s) && add !in s && k <= |s| && el == if k == 0 then null else s[k - 1]
    modifies add`prev, add`next, Nodes(s)`prev, Nodes(s)`next
    ensures DL(head, InsertAt(s, k, add))
  {
    head := head0;
    if el != null {
      LinkAfter(head, el, add, k, s);
    } else {
      assert InsertAt(s, k, add) == [add] + s;
      head := Prepend(head, add, s);
    }
  }

  /** `DL_LOWER_BOUND2`: the node before the first one not less than `like`, or null if that is the head. */
  method FindLowerBound<T>(head: Node?<T>, like: T, cmp: (T, T) -> int, ghost s: seq<Node<T>>)
    returns (elt: Node?<T>, ghost k: nat)
    requires DL(head, s)
    ensures elt == if LowerBound(cmp, s, like) == 0 then null else s[LowerBound(cmp, s, like) - 1]
    ensures k == LowerBound(cmp, s, like)
  {
    k := 0;
    if head == null || cmp(head.elt, like) >= 0 {
      elt := null;
    } else {
      elt := head;
      k := 1;
      while elt.next != null
        invariant 1 <= k <= |s| && elt == s[k - 1]
        invariant forall i :: 0 <= i < k ==> cmp(s[i].elt, like) < 0
        decreases |s| - k
      {
        if cmp(elt.next.elt, like) >= 0 {
          break;
        }
        elt := elt.next;
        k := k + 1;
      }
    }
    LowerBoundIs(cmp, s, like, k);
  }

  /** `DL_INSERT_INORDER2`. */
  method InsertInorder<T(!new)>(head0: Node?<T>, add: Node<T>, cmp: (T, T) -> int, ghost s: seq<Node<T>>)
    returns (head: Node?<T>, ghost k: nat)
    requires DL(head0, s) && add !in s
    modifies add`prev, add`next, Nodes(s)`prev, Nodes(s)`next
    ensures k == LowerBound(cmp, s, add.elt) && DL(head, InsertAt(s, k, add))
    ensures Preorder(cmp) && Sorted(Elt, cmp, s) ==> Sorted(Elt, cmp, InsertAt(s, k, add))
  {
    hide Preorder, Sorted, LowerBound, InsertAt;
    if Preorder(cmp) && Sorted(Elt, cmp, s) {
      InsertedSorted(cmp, s, add);
    }
    head := head0;
    if head != null {
      var elt;
      elt, k := FindLowerBound(head, add.elt, cmp, s);
      head := AppendElem(head, elt, add, k, s);
    } else {
      k := 0;
      FirstInserted(cmp, s, add);
      head := add;
      head.prev := head;
      head.next := null;
    }
  }
}

/** `CDL_*`: circular doubly linked lists. */
module Circular {
  import opened ListNodes
  import opened ListOrder
  import opened Sequences
  import opened StableSort

  /** `CDL_APPEND2`. */
  method Append<T>(head0: Node?<T>, add: Node<T>, ghost s: seq<Node<T>>) returns (head: Node?<T>)
    requires CDL(head0, s) && add !in s
    modifies add`prev, add`next, Nodes(s)`prev, Nodes(s)`next
    ensures CDL(head, s + [add])
  {
    head := head0;
    if head != null {
      add.prev := head.prev;
      add.next := head;
      head.prev := add;
      add.prev.next := add;
    } else {
      add.prev := add;
      add.next := add;
      head := add;
    }
  }

  /** `CDL_PREPEND2`. */
  method Prepend<T>(head0: Node?<T>, add: Node<T>, ghost s: seq<Node<T>>) returns (head: Node?<T>)
    requires CDL(head0, s) && add !in s
    modifies add`prev, add`next, Nodes(s)`prev, Nodes(s)`next
    ensures CDL(head, [add] + s)
  {
    head := head0;
    if head != null {
      add.prev := head.prev;
      add.next := head;
      head.prev := add;
      add.prev.next := add;
    } else {
      add.prev := add;
      add.next := add;
    }
    head := add;
  }

  /** `CDL_DELETE2`. */
  method Delete<T>(head0: Node<T>, del: Node<T>, ghost k: nat, ghost s: seq<Node<T>>) returns (head: Node?<T>)
    requires CDL(head0, s) && At(s, k, del)
    modifies Nodes(s)`prev, Nodes(s)`next
    ensures CDL(head, Without(s, k))
  {
    head := head0;
    ghost var last := |s| - 1;
    assert del.prev == (if k == 0 then s[last] else s[k - 1]) && del.next == if k == last then s[0] else s[k + 1];
    if head == del && head.next == head {
      head := null;
    } else {
      del.next.prev := del.prev;
      del.prev.next := del.next;
      if del == head {
        head := del.next;
      }
    }
  }

  /** `CDL_REPLACE_ELEM2`. */
  method ReplaceElem<T>(head0: Node<T>, el: Node<T>, add: Node<T>, ghost k: nat, ghost s: seq<Node<T>>)
    returns (head: Node<T>)
    requires CDL(head0, s) && At(s, k, el) && add !in s
    modifies add`prev, add`next, Nodes(s)`prev, Nodes(s)`next
    ensures CDL(head, s[k := add])
  {
    head := head0;
    assert el.prev == Before(s, k) && el.next == After(s, k + 1);
    if el.next == el {
      add.next := add;
      add.prev := add;
      head := add;
    } else {
      add.next := el.next;
      add.prev := el.prev;
      add.next.prev := add;
      add.prev.next := add;
      if head == el {
        head := add;
      }
    }
  }

  /** The pointer writes of `CDL_PREPEND_ELEM2`. */
  method LinkBefore<T>(head0: Node<T>, el: Node<T>, add: Node<T>, ghost k: nat, ghost s: seq<Node<T>>)
    returns (head: Node<T>)
    requires CDL(head0, s) && add !in s && At(s, k, el)
    modifies add`prev, add`next, Nodes(s)`prev, Nodes(s)`next
    ensures CDL(head, InsertAt(s, k, add))
  {
    hide InsertAt;
    Inserted(s, k, add);
    head := head0;
    assert el.prev == Before(s, k);
    add.next := el;
    add.prev := el.prev;
    el.prev := add;
    add.prev.next := add;
    if head == el {
      head := add;
    }
  }

  /** `CDL_PREPEND_ELEM2`. */
  method PrependElem<T>(head0: Node?<T>, el: Node?<T>, add: Node<T>, ghost k: nat, ghost s: seq<Node<T>>)
    returns (head: Node?<T>)
    requires CDL(head0, s) && add !in s && k <= |s| && el == if k == |s| then null else s[k]
    modifies add`prev, add`next, Nodes(s)`prev, Nodes(s)`next
    ensures CDL(head, InsertAt(s, k, add))
  {
    if el != null {
      head := LinkBefore(head0, el, add, k, s);
    } else {
      assert InsertAt(s, k, add) == s + [add];
      head := Append(head0, add, s);
    }
  }

  /** `CDL_APPEND_ELEM2` behind a node. */
  method LinkAfter<T>(head: Node<T>, el: Node<T>, add: Node<T>, ghost k: nat, ghost s: seq<Node<T>>)
    requires CDL(head, s) && add !in s && 0 < k <= |s| && el == s[k - 1]
    modifies add`prev, add`next, Nodes(s)`prev, Nodes(s)`next
    ensures CDL(head, InsertAt(s, k, add))
  {
    hide InsertAt;
    Inserted(s, k, add);
    assert el.next == After(s, k);
    add.next := el.next;
    add.prev := el;
    el.next := add;
    add.next.prev := add;
  }

  /** `CDL_APPEND_ELEM2`. */
  method AppendElem<T>(head0: Node?<T>, el: Node?<T>, add: Node<T>, ghost k: nat, ghost s: seq<Node<T>>)
    returns (head: Node?<T>)
    requires CDL(head0, s) && add !in s && k <= |s| && el == if k == 0 then null else s[k - 1]
    modifies add`prev, add`next, Nodes(s)`prev, Nodes(s)`next
    ensures CDL(head, InsertAt(s, k, add))
  {
    head := head0;
    if el != null {
      LinkAfter(head, el, add, k, s);
    } else {
      assert InsertAt(s, k, add) == [add] + s;
      head := Prepend(head, add, s);
    }
  }

  /** `CDL_LOWER_BOUND2`. */
  method FindLowerBound<T>(head: Node?<T>, like: T, cmp: (T, T) -> int, ghost s: seq<Node<T>>)
    returns (elt: Node?<T>, ghost k: nat)
    requires CDL(head, s)
    ensures elt == if LowerBound(cmp, s, like) == 0 then null else s[LowerBound(cmp, s, like) - 1]
    ensures k == LowerBound(cmp, s, like)
  {
    k := 0;
    if head == null || cmp(head.elt, like) >= 0 {
      elt := null;
    } else {
      elt := head;
      k := 1;
      while elt.next != head
        invariant 1 <= k <= |s| && elt == s[k - 1] && elt.next == After(s, k)
        invariant forall i :: 0 <= i < k ==> cmp(s[i].elt, like) < 0
        decreases |s| - k
      {
        if cmp(elt.next.elt, like) >= 0 {
          break;
        }
        elt := elt.next;
        k := k + 1;
      }
    }
    LowerBoundIs(cmp, s, like, k);
  }

  /** `CDL_INSERT_INORDER2`. */
  method InsertInorder<T(!new)>(head0: Node?<T>, add: Node<T>, cmp: (T, T) -> int, ghost s: seq<Node<T>>)
    returns (head: Node?<T>, ghost k: nat)
    requires CDL(head0, s) && add !in s
    modifies add`prev, add`next, Nodes(s)`prev, Nodes(s)`next
    ensures k == LowerBound(cmp, s, add.elt) && CDL(head, InsertAt(s, k, add))
    ensures Preorder(cmp) && Sorted(Elt, cmp, s) ==> Sorted(Elt, cmp, InsertAt(s, k, add))
  {
    hide Preorder, Sorted, LowerBound, InsertAt;
    if Preorder(cmp) && Sorted(Elt, cmp, s) {
      InsertedSorted(cmp, s, add);
    }
    head := head0;
    if head != null {
      var elt;
      elt, k := FindLowerBound(head, add.elt, cmp, s);
      head := AppendElem(head, elt, add, k, s);
    } else {
      k := 0;
      FirstInserted(cmp, s, add);
      head := add;
      head.next := head;
      head.prev := head;
    }
  }
}
