/** Bitwise operations on numbers, and the words they leave in the low bits. */
module Bitwise {
  import opened Masks

  datatype Op = AND | OR | XOR

  predicate Apply(op: Op, a: bool, b: bool) {
    match op
    case AND => a && b
    case OR => a || b
    case XOR => a != b
  }

  /** The operation on the low `w` bits. */
  function Bits(op: Op, w: nat, x: nat, y: nat): nat {
    if w == 0 then 0
    else (if Apply(op, x % 2 == 1, y % 2 == 1) then 1 else 0) + 2 * Bits(op, w - 1, x / 2, y / 2)
  }

  /** The complement of a word of `w` bits. */
  function Flip(w: nat, x: nat): nat
    requires x < Pow2(w)
  {
    Pow2(w) - 1 - x
  }

  lemma {:induction false} BitsRange(op: Op, w: nat, x: nat, y: nat)
    ensures Bits(op, w, x, y) < Pow2(w)
  {
    if w == 0 {
    } else {
      BitsRange(op, w - 1, x / 2, y / 2);
    }
  }

  /** The lowest bit and the bits above it, cut off. */
  lemma ModTwice(x: nat, p: nat)
    requires p > 0
    ensures x % (2 * p) == x % 2 + 2 * (x / 2 % p)
    ensures (x % (2 * p)) % 2 == x % 2 && (x % (2 * p)) / 2 == x / 2 % p
  {
    DoubleDivMod(x, p);
  }

  lemma NoBits(op: Op, x: nat, y: nat)
    ensures Bits(op, 0, x, y) == 0
  {}

  lemma BitsParts(op: Op, w: nat, x: nat, y: nat)
    requires w > 0
    ensures Bits(op, w, x, y) % 2 == (if Apply(op, x % 2 == 1, y % 2 == 1) then 1 else 0)
    ensures Bits(op, w, x, y) / 2 == Bits(op, w - 1, x / 2, y / 2)
  {}

  /** The low bits of the result come from the low bits of the operands. */
  lemma {:induction false} BitsLow(op: Op, w: nat, k: nat, x: nat, y: nat)
    requires k <= w
    ensures Bits(op, w, x, y) % Pow2(k) == Bits(op, k, x % Pow2(k), y % Pow2(k))
  {
    hide Bits, Apply;
    if k == 0 {
      NoBits(op, x % Pow2(k), y % Pow2(k));
    } else {
      var p := Pow2(k - 1);
      BitsParts(op, w, x, y);
      BitsParts(op, k, x % Pow2(k), y % Pow2(k));
      BitsLow(op, w - 1, k - 1, x / 2, y / 2);
      ModTwice(x, p);
      ModTwice(y, p);
      ModTwice(Bits(op, w, x, y), p);
    }
  }

  lemma FlipParts(w: nat, x: nat)
    requires w > 0 && x < Pow2(w)
    ensures x / 2 < Pow2(w - 1) && Flip(w, x) % 2 == 1 - x % 2 && Flip(w, x) / 2 == Flip(w - 1, x / 2)
  {}

  /** z ^ (x & (y ^ z)) selects as (x & y) | (~x & z) does. */
  lemma {:induction false} Select(w: nat, x: nat, y: nat, z: nat)
    requires x < Pow2(w)
    ensures Bits(XOR, w, z, Bits(AND, w, x, Bits(XOR, w, y, z)))
            == Bits(OR, w, Bits(AND, w, x, y), Bits(AND, w, Flip(w, x), z))
  {
    if w == 0 {
    } else {
      FlipParts(w, x);
      Select(w - 1, x / 2, y / 2, z / 2);
      BitsParts(XOR, w, y, z);
      BitsParts(AND, w, x, Bits(XOR, w, y, z));
      BitsParts(AND, w, x, y);
      BitsParts(AND, w, Flip(w, x), z);
    }
  }

  /** y ^ (z & (x ^ y)) selects as (x & z) | (y & ~z) does. */
  lemma {:induction false} SelectBack(w: nat, x: nat, y: nat, z: nat)
    requires z < Pow2(w)
    ensures Bits(XOR, w, y, Bits(AND, w, z, Bits(XOR, w, x, y)))
            == Bits(OR, w, Bits(AND, w, x, z), Bits(AND, w, y, Flip(w, z)))
  {
    if w == 0 {
    } else {
      FlipParts(w, z);
      SelectBack(w - 1, x / 2, y / 2, z / 2);
      BitsParts(XOR, w, x, y);
      BitsParts(AND, w, z, Bits(XOR, w, x, y));
      BitsParts(AND, w, x, z);
      BitsParts(AND, w, y, Flip(w, z));
    }
  }

  lemma DoubleProduct(x: int, y: int)
    ensures 2 * (x * y) == (2 * x) * y
  {}

  lemma {:induction false} PowSplit(a: nat, b: nat)
    ensures Pow2(a + b) == Pow2(a) * Pow2(b)
  {
    if a == 0 {
    } else {
      PowSplit(a - 1, b);
      DoubleProduct(Pow2(a - 1), Pow2(b));
    }
  }

  lemma MulAssociate(a: int, b: int, c: int)
    ensures a * (b * c) == (a * b) * c
  {}
}
