/** What the operations on words do to single bits and bytes, in terms of bit vectors. */
module WordLaws {
  import opened Bitwise
  import opened Masks
  import opened Words

  lemma QuotientNat(a: nat, p: nat)
    requires p > 0
    ensures a / p >= 0
  {
    var q := a / p;
    if q < 0 { ScaleUp(p, 1, -q); }
  }

  /** The bits from `k` on. */
  function High(x: nat, k: nat): nat {
    QuotientNat(x, Pow2(k));
    x / Pow2(k)
  }

  /** Bit `k` of a number. */
  predicate Bit(x: nat, k: nat) { x / Pow2(k) % 2 == 1 }

  lemma HalfDiv(x: nat, k: nat)
    requires k > 0
    ensures High(x, k) == High(x / 2, k - 1)
  {
    DoubleDivMod(x, Pow2(k - 1));
  }

  /** Each bit of the result comes from the same bit of the operands. */
  lemma {:induction false} BitOf(op: Op, w: nat, x: nat, y: nat, k: nat)
    requires k < w
    ensures Bit(Bits(op, w, x, y), k) <==> Apply(op, Bit(x, k), Bit(y, k))
  {
    hide Bits, Apply;
    BitsParts(op, w, x, y);
    if k == 0 {
      assert Pow2(0) == 1;
    } else {
      BitOf(op, w - 1, x / 2, y / 2, k - 1);
      HalfDiv(x, k);
      HalfDiv(y, k);
      HalfDiv(Bits(op, w, x, y), k);
    }
  }

  lemma {:induction false} FlipBit(w: nat, x: nat, k: nat)
    requires x < Pow2(w) && k < w
    ensures Bit(Flip(w, x), k) <==> !Bit(x, k)
  {
    FlipParts(w, x);
    if k == 0 {
      assert Pow2(0) == 1;
    } else {
      FlipBit(w - 1, x / 2, k - 1);
      HalfDiv(x, k);
      HalfDiv(Flip(w, x), k);
    }
  }

  // ---- words as bit vectors ----

  function Vector(op: Op, x: bv32, y: bv32): bv32 {
    match op
    case AND => x & y
    case OR => x | y
    case XOR => x ^ y
  }

  function Half(x: bv32): bv32 { x / 2 }

  predicate Odd(x: bv32) { x & 1 == 1 }

  function OneIf(b: bool): nat { if b then 1 else 0 }

  lemma AndHalf(x: bv32, y: bv32)
    ensures Half(Vector(AND, x, y)) == Vector(AND, Half(x), Half(y))
  {}

  lemma AndOdd(x: bv32, y: bv32)
    ensures Odd(Vector(AND, x, y)) <==> Apply(AND, Odd(x), Odd(y))
  {}

  lemma OrHalf(x: bv32, y: bv32)
    ensures Half(Vector(OR, x, y)) == Vector(OR, Half(x), Half(y))
  {}

  lemma OrOdd(x: bv32, y: bv32)
    ensures Odd(Vector(OR, x, y)) <==> Apply(OR, Odd(x), Odd(y))
  {}

  lemma XorHalf(x: bv32, y: bv32)
    ensures Half(Vector(XOR, x, y)) == Vector(XOR, Half(x), Half(y))
  {}

  lemma XorOdd(x: bv32, y: bv32)
    ensures Odd(Vector(XOR, x, y)) <==> Apply(XOR, Odd(x), Odd(y))
  {}

  lemma VectorParts(op: Op, x: bv32, y: bv32)
    ensures Half(Vector(op, x, y)) == Vector(op, Half(x), Half(y))
    ensures Odd(Vector(op, x, y)) <==> Apply(op, Odd(x), Odd(y))
  {
    hide Vector, Half, Odd, Apply;
    match op {
      case AND => AndHalf(x, y); AndOdd(x, y);
      case OR => OrHalf(x, y); OrOdd(x, y);
      case XOR => XorHalf(x, y); XorOdd(x, y);
    }
  }

  /** The number that the low `w` bits write. */
  function Num(w: nat, x: bv32): nat {
    if w == 0 then 0 else OneIf(Odd(x)) + 2 * Num(w - 1, Half(x))
  }

  lemma NumParts(w: nat, x: bv32)
    requires w > 0
    ensures Num(w, x) % 2 == OneIf(Odd(x)) && Num(w, x) / 2 == Num(w - 1, Half(x))
    ensures OneIf(Odd(x)) == 1 <==> Odd(x)
  {}

  lemma BitsNext(op: Op, w: nat, x: nat, y: nat)
    requires w > 0
    ensures Bits(op, w, x, y) == OneIf(Apply(op, x % 2 == 1, y % 2 == 1)) + 2 * Bits(op, w - 1, x / 2, y / 2)
  {}

  lemma {:induction false} NumOp(op: Op, w: nat, x: bv32, y: bv32)
    ensures Bits(op, w, Num(w, x), Num(w, y)) == Num(w, Vector(op, x, y))
  {
    hide Vector, Half, Odd, Apply, OneIf;
    if w == 0 {
    } else {
      VectorParts(op, x, y);
      NumParts(w, x);
      NumParts(w, y);
      BitsNext(op, w, Num(w, x), Num(w, y));
      NumOp(op, w - 1, Half(x), Half(y));
    }
  }

  function Halves(k: nat, x: bv32): bv32 { if k == 0 then x else Halves(k - 1, Half(x)) }

  lemma {:induction false} NumJoin(k: nat, w: nat, x: bv32)
    ensures Num(k + w, x) == Num(k, x) + Pow2(k) * Num(w, Halves(k, x))
  {
    hide Half, Odd;
    if k == 0 {
    } else {
      NumJoin(k - 1, w, Half(x));
      DoubleProduct(Pow2(k - 1), Num(w, Halves(k, x)));
    }
  }

  /** The number of a word. */
  function Nat(x: bv32): Word { x as nat }

  function Low8(x: bv32): bv32 { x & 0xFF }
  function Low16(x: bv32): bv32 { x & 0xFFFF }
  function Low24(x: bv32): bv32 { x & 0xFF_FFFF }
  function Down(x: bv32): bv32 { x / 256 }

  /** The number of one byte, bit by bit. */
  lemma ByteNum(x: bv32)
    ensures Nat(Low8(x)) == OneIf(Odd(x)) + 2 * OneIf(Odd(x / 2)) + 4 * OneIf(Odd(x / 4)) + 8 * OneIf(Odd(x / 8))
                                 + 16 * OneIf(Odd(x / 16)) + 32 * OneIf(Odd(x / 32))
                                 + 64 * OneIf(Odd(x / 64)) + 128 * OneIf(Odd(x / 128))
  {}

  lemma FourHalves(x: bv32)
    ensures Half(x) == x / 2 && Half(x / 2) == x / 4 && Half(x / 4) == x / 8 && Half(x / 8) == x / 16
  {}

  lemma FiveHalves(x: bv32)
    ensures Half(x / 16) == x / 32 && Half(x / 32) == x / 64 && Half(x / 64) == x / 128 && Half(x / 128) == Down(x)
  {}

  lemma TwoBits(w: nat, x: bv32, y: bv32, z: bv32)
    requires y == Half(x) && z == Half(y)
    ensures Num(w + 2, x) == OneIf(Odd(x)) + 2 * OneIf(Odd(y)) + 4 * Num(w, z)
    ensures Num(0, z) == 0 && Halves(w + 2, x) == Halves(w, z) && Halves(0, z) == z
  {
    hide Half, Odd, OneIf;
    assert Num(w + 1, y) == OneIf(Odd(y)) + 2 * Num(w, z);
    assert Halves(w + 1, y) == Halves(w, z);
  }

  lemma LowByte(x: bv32)
    ensures Num(8, x) == Nat(Low8(x)) && Halves(8, x) == Down(x)
  {
    hide *;
    ByteNum(x);
    FourHalves(x);
    FiveHalves(x);
    TwoBits(6, x, x / 2, x / 4);
    TwoBits(4, x / 4, x / 8, x / 16);
    TwoBits(2, x / 16, x / 32, x / 64);
    TwoBits(0, x / 64, x / 128, Down(x));
  }

  lemma SplitWord(x: bv32)
    ensures Nat(x) == 0x100_0000 * Nat(Low8(Down(Down(Down(x))))) + Nat(Low24(x))
  {}

  lemma SplitThree(x: bv32)
    ensures Nat(Low24(x)) == 0x1_0000 * Nat(Low8(Down(Down(x)))) + Nat(Low16(x))
  {}

  lemma SplitTwo(x: bv32)
    ensures Nat(Low16(x)) == 0x100 * Nat(Low8(Down(x))) + Nat(Low8(x))
  {}

  lemma PowerOf8()
    ensures Pow2(8) == 0x100
  {
    hide Pow2;
    PowerOf4();
    PowSplit(4, 4);
  }

  lemma JoinByte(w: nat, x: bv32)
    ensures Num(8 + w, x) == Nat(Low8(x)) + 0x100 * Num(w, Down(x))
  {
    PowerOf8();
    LowByte(x);
    NumJoin(8, w, x);
    hide Num, Halves, Pow2, Nat, Low8, Down;
  }

  /** A bit vector is the number that its bits write. */
  lemma NumIs(x: bv32)
    ensures Num(32, x) == Nat(x)
  {
    hide *;
    JoinByte(24, x);
    JoinByte(16, Down(x));
    JoinByte(8, Down(Down(x)));
    LowByte(Down(Down(Down(x))));
    SplitWord(x);
    SplitThree(x);
    SplitTwo(x);
  }

  /** On words the operations are those of bit vectors. */
  lemma WordOp(op: Op, x: bv32, y: bv32)
    ensures Bits(op, 32, Nat(x), Nat(y)) == Nat(Vector(op, x, y))
  {
    hide *;
    NumIs(x);
    NumIs(y);
    NumIs(Vector(op, x, y));
    NumOp(op, 32, x, y);
  }

  lemma {:induction false} FlipXor(w: nat, x: nat)
    requires x < Pow2(w)
    ensures Bits(XOR, w, x, Pow2(w) - 1) == Flip(w, x)
  {
    if w == 0 {
    } else {
      FlipParts(w, x);
      FlipXor(w - 1, x / 2);
    }
  }

  lemma AndIs(x: bv32, y: bv32)
    ensures Words.And(Nat(x), Nat(y)) == Nat(Vector(AND, x, y))
  {
    WordOp(AND, x, y);
    hide Bits, Nat, Vector;
  }

  lemma OrIs(x: bv32, y: bv32)
    ensures Or(Nat(x), Nat(y)) == Nat(Vector(OR, x, y))
  {
    WordOp(OR, x, y);
    hide Bits, Nat, Vector;
  }

  lemma XorIs(x: bv32, y: bv32)
    ensures Xor(Nat(x), Nat(y)) == Nat(Vector(XOR, x, y))
  {
    WordOp(XOR, x, y);
    hide Bits, Nat, Vector;
  }

  function Inverse(x: bv32): bv32 { !x }

  lemma NotXor(x: bv32)
    ensures Vector(XOR, x, 0xFFFF_FFFF) == Inverse(x) && Nat(0xFFFF_FFFF) == 0xFFFF_FFFF && Nat(x) < 0x1_0000_0000
  {}

  lemma NotIs(x: bv32)
    ensures Nat(x) < 0x1_0000_0000 && Not(Nat(x)) == Nat(Inverse(x))
  {
    hide Bits, Nat, Vector, Inverse, Pow2;
    NotXor(x);
    PowerOf32();
    FlipXor(32, Nat(x));
    WordOp(XOR, x, 0xFFFF_FFFF);
  }

  lemma {:induction false} OrDisjoint(w: nat, n: nat, x: nat, y: nat)
    requires Pow2(n) * x < Pow2(w) && y < Pow2(n) && y < Pow2(w)
    ensures Bits(OR, w, Pow2(n) * x, y) == Pow2(n) * x + y
  {
    var z := Pow2(n) * x;
    if w == 0 {
    } else if n == 0 {
      assert z == x && y == 0;
      OrDisjoint(w - 1, 0, x / 2, 0);
      assert Pow2(0) * (x / 2) == x / 2;
    } else {
      assert z == 2 * (Pow2(n - 1) * x) by { DoubleProduct(Pow2(n - 1), x); }
      OrDisjoint(w - 1, n - 1, x, y / 2);
    }
  }

  lemma ModMod(a: nat, p: nat, q: nat)
    requires p > 0 && q > 0
    ensures p * q > 0 && a % (p * q) % p == a % p
  {
    var u, r := a / p, a % p;
    var v, s := u / q, u % q;
    DivDivParts(a, p, q, u, r, v, s);
    DivModUnique(a, p * q, v, p * s + r);
    DivModUnique(p * s + r, p, s, r);
  }

  /** Twice a number, cut at `2 * p * m` and then at `2 * p`. */
  lemma TwiceCut(a: nat, p: nat, m: nat)
    requires p > 0 && m > 0
    ensures 2 * p * m > 0 && (2 * a) % (2 * p * m) % (2 * p) == 2 * (a % p)
  {
    ModMod(2 * a, 2 * p, m);
    ModTwice(2 * a, p);
  }

  lemma ShlStep(a: Word, n: nat)
    requires n > 0
    ensures Shl(a, n) == Shl((2 * a) % 0x1_0000_0000, n - 1) && Shl(a, 0) == a
    ensures Pow2(n) == 2 * Pow2(n - 1) && Pow2(0) == 1
  {}

  /** A shift of a word: the low `32 - n` bits go up by `n` places. */
  lemma {:induction false} ShlIs(a: Word, n: nat)
    requires n <= 32
    ensures Shl(a, n) == Pow2(n) * (a % Pow2(32 - n))
    decreases n
  {
    hide Pow2, Shl;
    PowerOf32();
    if n == 0 {
      ShlStep(a, 1);
    } else {
      var b, p, m := (2 * a) % 0x1_0000_0000, Pow2(32 - n), Pow2(n - 1);
      ShlStep(a, n);
      ShlStep(a, 33 - n);
      ShlIs(b, n - 1);
      PowSplit(33 - n, n - 1);
      TwiceCut(a, p, m);
      MulAssociate(m, 2, a % p);
    }
  }

  lemma QuotientBelow(a: nat, p: nat, q: nat)
    requires p > 0 && q > 0 && a < p * q
    ensures 0 <= a / p < q
  {
    if a / p >= q { ScaleUp(p, q, a / p); }
  }

  /** The low `32 - n` bits go up by `n` places, the others come in below them. */
  lemma RotlIs(w: Word, n: nat)
    requires 0 < n < 32
    ensures Rotl(w, n) == Pow2(n) * (w % Pow2(32 - n)) + High(w, 32 - n)
  {
    var p, q := Pow2(32 - n), Pow2(n);
    PowerOf32();
    PowSplit(32 - n, n);
    PowSplit(n, 32 - n);
    ShlIs(w, n);
    ShrDivides(w, 32 - n);
    QuotientBelow(w, p, q);
    QuotientBelow(w, q, p);
    hide Pow2, Shl, Masks.Shr;
    ScaleUp(q, w % p, p - 1);
    MulSplit(q, p, -1);
    OrDisjoint(32, n, w % p, w / p);
  }

  function Choose(x: bv32, y: bv32, z: bv32): bv32 {
    Vector(OR, Vector(AND, x, y), Vector(AND, Inverse(x), z))
  }

  function Parity(x: bv32, y: bv32, z: bv32): bv32 { Vector(XOR, Vector(XOR, x, y), z) }

  lemma XorOf(x: bv32, y: bv32)
    ensures Vector(XOR, x, y) == x ^ y
  {}

  lemma ParityIs(x: bv32, y: bv32, z: bv32)
    ensures Parity(x, y, z) == x ^ y ^ z
  {
    hide Vector;
    XorOf(x, y);
    XorOf(x ^ y, z);
  }

  lemma ChooseWord(x: bv32, y: bv32, z: bv32)
    ensures Or(Words.And(Nat(x), Nat(y)), Words.And(Not(Nat(x)), Nat(z))) == Nat(Choose(x, y, z))
  {
    hide Words.And, Or, Not, Nat, Vector, Inverse;
    NotIs(x);
    AndIs(x, y);
    AndIs(Inverse(x), z);
    OrIs(Vector(AND, x, y), Vector(AND, Inverse(x), z));
  }

  lemma ParityWord(x: bv32, y: bv32, z: bv32)
    ensures Xor(Xor(Nat(x), Nat(y)), Nat(z)) == Nat(Parity(x, y, z))
  {
    hide Xor, Nat, Vector;
    XorIs(x, y);
    XorIs(Vector(XOR, x, y), z);
  }

  /** The four bytes of a word are its digits in base 256. */
  lemma DigitsOf(a: Byte, b: Byte, c: Byte, d: Byte)
    ensures var w := 0x100_0000 * a + 0x1_0000 * b + 0x100 * c + d;
            Digit(w, 3) == a && Digit(w, 2) == b && Digit(w, 1) == c && Digit(w, 0) == d
  {
    var w := 0x100_0000 * a + 0x1_0000 * b + 0x100 * c + d;
    assert Pow256(0) == 1 && Pow256(1) == 0x100 && Pow256(2) == 0x1_0000 && Pow256(3) == 0x100_0000;
    assert w / 0x100_0000 == a && w / 0x1_0000 == 0x100 * a + b && w / 0x100 == 0x1_0000 * a + 0x100 * b + c;
  }

  lemma OneDigit(x: Byte, k: nat)
    ensures Digit(x, k) == if k == 0 then x else 0
  {
    if k == 0 {
      assert Pow256(0) == 1;
    } else {
      assert Pow256(k) == 256 * Pow256(k - 1);
      DivModUnique(x, Pow256(k), 0, x);
    }
  }

  lemma Wrap(u: nat, v: nat)
    ensures (u % 0x1_0000_0000 + v) % 0x1_0000_0000 == (u + v) % 0x1_0000_0000
  {}
}
