/** What section 5 of RFC 3174 computes, bit by bit, and the first test of its section 7.3. */
module Sha1Laws {
  import opened Bitwise
  import opened Blocks
  import Masks
  import Sha1
  import opened Sha1Spec
  import opened WordLaws
  import opened Words

  /** The constants are the integer parts of 2^30 times the square roots of 2, 3, 5 and 10. */
  lemma RootsOf(t: nat)
    ensures var n := if t < 20 then 2 else if t < 40 then 3 else if t < 60 then 5 else 10;
            K(t) * K(t) <= n * 0x1000_0000_0000_0000 < (K(t) + 1) * (K(t) + 1)
  {}

  lemma NotBit(x: Word, k: nat)
    requires k < 32
    ensures Bit(Not(x), k) <==> !Bit(x, k)
  {
    PowerOf32();
    FlipBit(32, x, k);
  }

  /** Each bit of F is that of the second word or of the third, as the first one says; or the bit of an odd
      number of ones; or the one that two of the words have. */
  lemma FBit(t: nat, b: Word, c: Word, d: Word, k: nat)
    requires k < 32
    ensures var x, y, z := Bit(b, k), Bit(c, k), Bit(d, k);
            Bit(F(t, b, c, d), k) <==>
            if t < 20 then (if x then y else z)
            else if 40 <= t < 60 then (if x == y then x else z)
            else (x == y) == z
  {
    BitOf(AND, 32, b, c, k);
    BitOf(AND, 32, Not(b), d, k);
    BitOf(AND, 32, b, d, k);
    BitOf(AND, 32, c, d, k);
    BitOf(OR, 32, And(b, c), And(Not(b), d), k);
    BitOf(OR, 32, And(b, c), And(b, d), k);
    BitOf(OR, 32, Or(And(b, c), And(b, d)), And(c, d), k);
    BitOf(XOR, 32, b, c, k);
    BitOf(XOR, 32, Xor(b, c), d, k);
    NotBit(b, k);
    hide Bits, Bit, Not;
  }

  lemma OrOf(h: nat, low: nat, n: nat)
    requires n <= 32 && low < Masks.Pow2(n) && Masks.Pow2(n) * h < 0x1_0000_0000 && low < 0x1_0000_0000
    ensures Or(Masks.Pow2(n) * h, low) == Masks.Pow2(n) * h + low
  {
    PowerOf32();
    OrDisjoint(32, n, h, low);
  }

  lemma PowersOf8()
    ensures Masks.Pow2(8) == 0x100 && Masks.Pow2(16) == 0x1_0000 && Masks.Pow2(24) == 0x100_0000
  {
    hide Masks.Pow2;
    PowerOf8();
    PowSplit(8, 8);
    PowSplit(8, 16);
  }

  /** A word from four bytes is the number that they write in base 256. */
  lemma BigEndianIs(b0: Byte, b1: Byte, b2: Byte, b3: Byte)
    ensures BigEndian(b0, b1, b2, b3) == 0x100_0000 * b0 + 0x1_0000 * b1 + 0x100 * b2 + b3
  {
    hide Or, Shl, Masks.Pow2;
    PowersOf8();
    ShlIs(b0, 24);
    ShlIs(b1, 16);
    ShlIs(b2, 8);
    OrOf(b0, 0x1_0000 * b1, 24);
    OrOf(0x100 * b0 + b1, 0x100 * b2, 16);
    OrOf(0x1_0000 * b0 + 0x100 * b1 + b2, b3, 8);
  }

  /** The four bytes of a word are its digits in base 256, the highest first. */
  lemma WordBytesIs(a: Byte, b: Byte, c: Byte, d: Byte)
    ensures WordBytes(0x100_0000 * a + 0x1_0000 * b + 0x100 * c + d) == [a, b, c, d]
  {
    DigitsOf(a, b, c, d);
    hide Digit;
  }

  // ---- the digest of a given message ----

  function Majority(x: bv32, y: bv32, z: bv32): bv32 {
    Vector(OR, Vector(OR, Vector(AND, x, y), Vector(AND, x, z)), Vector(AND, y, z))
  }

  lemma MajorityWord(x: bv32, y: bv32, z: bv32)
    ensures Or(Or(And(Nat(x), Nat(y)), And(Nat(x), Nat(z))), And(Nat(y), Nat(z))) == Nat(Majority(x, y, z))
  {
    hide And, Or, Nat, Vector;
    AndIs(x, y);
    AndIs(x, z);
    AndIs(y, z);
    OrIs(Vector(AND, x, y), Vector(AND, x, z));
    OrIs(Vector(OR, Vector(AND, x, y), Vector(AND, x, z)), Vector(AND, y, z));
  }

  lemma Shifts(w: Word)
    ensures Rotl(w, 1) == 2 * (w % 0x8000_0000) + w / 0x8000_0000
    ensures Rotl(w, 5) == 32 * (w % 0x800_0000) + w / 0x800_0000
    ensures Rotl(w, 30) == 0x4000_0000 * (w % 4) + w / 4
  {
    RotlIs(w, 1);
    RotlIs(w, 5);
    RotlIs(w, 30);
    hide Rotl;
    assert Masks.Pow2(2) == 4 && Masks.Pow2(1) == 2 && Masks.Pow2(5) == 32;
    PowSplit(1, 31);
    PowSplit(5, 27);
    PowSplit(2, 30);
    PowerOf32();
  }

  /** The state of the working variables before step `t`. */
  predicate Before(h: Regs, ws: seq<Word>, t: nat, a: bv32, b: bv32, c: bv32, d: bv32, e: bv32) {
    t <= |ws| && Rounds(h, ws, t) == Regs(Nat(a), Nat(b), Nat(c), Nat(d), Nat(e))
  }

  /** F on bit vectors. */
  function FVector(t: nat, x: bv32, y: bv32, z: bv32): bv32 {
    if t < 20 then Choose(x, y, z) else if 40 <= t < 60 then Majority(x, y, z) else Parity(x, y, z)
  }

  lemma FIs(t: nat, x: bv32, y: bv32, z: bv32)
    ensures F(t, Nat(x), Nat(y), Nat(z)) == Nat(FVector(t, x, y, z))
  {
    hide And, Or, Not, Xor, Nat, Choose, Majority, Parity;
    ChooseWord(x, y, z);
    ParityWord(x, y, z);
    MajorityWord(x, y, z);
  }

  function Turned(x: bv32): bv32 { (x * 0x4000_0000) | (x / 4) }

  lemma Sums(a: Word, f: Word, e: Word, w: Word, k: Word)
    ensures Add(Add(Add(Add(a, f), e), w), k) == (a + f + e + w + k) % 0x1_0000_0000
  {
    Wrap(a + f, e);
    Wrap(a + f + e, w);
    Wrap(a + f + e + w, k);
  }

  /** A step on given words. */
  lemma Turn(h: Regs, ws: seq<Word>, t: nat, a: bv32, b: bv32, c: bv32, d: bv32, e: bv32, w: bv32, r: bv32)
    requires t < |ws| && ws[t] == Nat(w) && Before(h, ws, t, a, b, c, d, e)
    requires Nat(r) == (32 * (Nat(a) % 0x800_0000) + Nat(a) / 0x800_0000
                        + Nat(FVector(t, b, c, d)) + Nat(e) + Nat(w) + K(t)) % 0x1_0000_0000
    requires Nat(Turned(b)) == 0x4000_0000 * (Nat(b) % 4) + Nat(b) / 4
    ensures Before(h, ws, t + 1, r, a, Turned(b), c, d)
  {
    hide Rounds, F, K, Rotl, Add, FVector, Turned, Nat;
    FIs(t, b, c, d);
    Shifts(Nat(a));
    Shifts(Nat(b));
    Sums(Rotl(Nat(a), 5), F(t, Nat(b), Nat(c), Nat(d)), Nat(e), Nat(w), K(t));
    Sha1.StepIs(Regs(Nat(a), Nat(b), Nat(c), Nat(d), Nat(e)), h, ws, t, Nat(r));
  }
}
