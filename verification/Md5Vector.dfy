/** The test of appendix A.5 of RFC 1321 for "abc", step by step. */
module Md5Vector {
  import opened Bitwise
  import opened Blocks
  import opened Masks
  import Md5
  import opened Md5Spec
  import opened WordLaws
  import opened Words

  function ChooseBack(x: bv32, y: bv32, z: bv32): bv32 {
    Vector(OR, Vector(AND, x, z), Vector(AND, y, Inverse(z)))
  }

  /** F on bit vectors. */
  function FVector(i: nat, x: bv32, y: bv32, z: bv32): bv32 {
    if i < 16 then Choose(x, y, z)
    else if i < 32 then ChooseBack(x, y, z)
    else if i < 48 then Parity(x, y, z)
    else Vector(XOR, y, Vector(OR, x, Inverse(z)))
  }

  lemma ChooseBackWord(x: bv32, y: bv32, z: bv32)
    ensures Or(Words.And(Nat(x), Nat(z)), Words.And(Nat(y), Not(Nat(z)))) == Nat(ChooseBack(x, y, z))
  {
    hide Words.And, Or, Not, Nat, Vector, Inverse;
    NotIs(z);
    AndIs(x, z);
    AndIs(y, Inverse(z));
    OrIs(Vector(AND, x, z), Vector(AND, y, Inverse(z)));
  }

  lemma LastWord(x: bv32, y: bv32, z: bv32)
    ensures Xor(Nat(y), Or(Nat(x), Not(Nat(z)))) == Nat(Vector(XOR, y, Vector(OR, x, Inverse(z))))
  {
    hide Or, Xor, Not, Nat, Vector, Inverse;
    NotIs(z);
    OrIs(x, Inverse(z));
    XorIs(y, Vector(OR, x, Inverse(z)));
  }

  lemma FIs(i: nat, x: bv32, y: bv32, z: bv32)
    ensures F(i, Nat(x), Nat(y), Nat(z)) == Nat(FVector(i, x, y, z))
  {
    hide Words.And, Or, Xor, Not, Nat, Vector, Inverse, Choose, ChooseBack, Parity;
    ChooseWord(x, y, z);
    ChooseBackWord(x, y, z);
    ParityWord(x, y, z);
    LastWord(x, y, z);
  }

  /** 2 to the power of a shift amount of the standard. */
  function TwoTo(s: nat): (p: nat)
    ensures p > 0
  {
    match s
    case 4 => 0x10
    case 5 => 0x20
    case 6 => 0x40
    case 7 => 0x80
    case 9 => 0x200
    case 10 => 0x400
    case 11 => 0x800
    case 12 => 0x1000
    case 14 => 0x4000
    case 15 => 0x8000
    case 16 => 0x10000
    case 17 => 0x20000
    case 20 => 0x100000
    case 21 => 0x200000
    case 22 => 0x400000
    case _ => 0x800000
  }

  lemma Doubled(k: nat)
    ensures Pow2(0) == 1 && Pow2(k + 1) == 2 * Pow2(k)
  {}

  lemma Powers()
    ensures forall k :: 0 <= k < 64 ==> Pow2(ShiftOf(k)) == TwoTo(ShiftOf(k))
  {
    hide Pow2;
    Doubled(0);
    Doubled(1);
    Doubled(2);
    Doubled(3);
    Doubled(4);
    Doubled(5);
    Doubled(6);
    Doubled(7);
    Doubled(8);
    Doubled(9);
    Doubled(10);
    Doubled(11);
    Doubled(12);
    Doubled(13);
    Doubled(14);
    Doubled(15);
    Doubled(16);
    Doubled(17);
    Doubled(18);
    Doubled(19);
    Doubled(20);
    Doubled(21);
    Doubled(22);
  }

  /** The state before step `i`. */
  predicate Before(x: seq<Word>, i: nat, a: bv32, b: bv32, c: bv32, d: bv32) {
    |x| == 16 && Steps(H0, x, i) == Regs(Nat(a), Nat(b), Nat(c), Nat(d))
  }

  /** The words of the block. */
  function AbcWord(j: nat): Word { if j == 0 then 0x80636261 else if j == 14 then 24 else 0 }

  predicate AbcWords(x: seq<Word>) {
    |x| == 16 && forall j :: 0 <= j < 16 ==> x[j] == AbcWord(j)
  }

  lemma Rotated(y: Word, i: nat, p: nat, q: nat)
    requires i < 64 && p == TwoTo(ShiftOf(i)) && p * q == 0x1_0000_0000
    ensures q > 0 && Rotl(y, ShiftOf(i)) == p * (y % q) + y / q
  {
    hide Pow2, Rotl, ShiftOf, TwoTo;
    var s := ShiftOf(i);
    Powers();
    PowerOf32();
    PowSplit(s, 32 - s);
    RotlIs(y, s);
    DivModUnique(0x1_0000_0000, p, q, 0);
    DivModUnique(0x1_0000_0000, p, Pow2(32 - s), 0);
  }

  lemma Sums(a: Word, f: Word, x: Word, t: Word)
    ensures Add(Add(Add(a, f), x), t) == (a + f + x + t) % 0x1_0000_0000
  {
    Wrap(a + f, x);
    Wrap(a + f + x, t);
  }

  lemma StepIs(x: seq<Word>, i: nat, r: Regs)
    requires |x| == 16 && Steps(H0, x, i) == r
    ensures Steps(H0, x, i + 1)
            == Regs(r.d, Add(r.b, Rotl(Add(Add(Add(r.a, F(i, r.b, r.c, r.d)), x[KIndex(i)]), T(i)), ShiftOf(i))),
                    r.b, r.c)
  {
    hide F, T, Rotl, Add, KIndex, ShiftOf;
  }

  /** A step on given words. */
  lemma Turn(x: seq<Word>, i: nat, a: bv32, b: bv32, c: bv32, d: bv32, y: int, p: int, q: int, r: bv32)
    requires i < 64 && AbcWords(x) && Before(x, i, a, b, c, d)
    requires y == (Nat(a) + Nat(FVector(i, b, c, d)) + AbcWord(KIndex(i)) + T(i)) % 0x1_0000_0000
    requires p == TwoTo(ShiftOf(i)) && q > 0 && p * q == 0x1_0000_0000
    requires Nat(r) == (Nat(b) + p * (y % q) + y / q) % 0x1_0000_0000
    ensures Before(x, i + 1, d, r, b, c)
  {
    hide Steps, F, T, KIndex, ShiftOf, TwoTo, Rotl, AbcWord, Nat, FVector;
    FIs(i, b, c, d);
    Rotated(y, i, p, q);
    Sums(Nat(a), F(i, Nat(b), Nat(c), Nat(d)), x[KIndex(i)], T(i));
    StepIs(x, i, Regs(Nat(a), Nat(b), Nat(c), Nat(d)));
  }

  lemma Steps0(x: seq<Word>)
    requires AbcWords(x) && Before(x, 0, 0x67452301, 0xEFCDAB89, 0x98BADCFE, 0x10325476)
    ensures Before(x, 4, 0xD6D117B4, 0x7AD956F2, 0x2F6FBD72, 0x344A8432)
  {
    hide Steps, Before, AbcWords;
    assert Before(x, 1, 0x10325476, 0xD6D117B4, 0xEFCDAB89, 0x98BADCFE) by {
      Turn(x, 0, 0x67452301, 0xEFCDAB89, 0x98BADCFE, 0x10325476, 0x57CE06D8, 0x80, 0x2000000, 0xD6D117B4);
    }
    assert Before(x, 2, 0x98BADCFE, 0x344A8432, 0xD6D117B4, 0xEFCDAB89) by {
      Turn(x, 1, 0x10325476, 0xD6D117B4, 0xEFCDAB89, 0x98BADCFE, 0xC7E5D796, 0x1000, 0x100000, 0x344A8432);
    }
    assert Before(x, 3, 0xEFCDAB89, 0x2F6FBD72, 0x344A8432, 0xD6D117B4) by {
      Turn(x, 2, 0x98BADCFE, 0x344A8432, 0xD6D117B4, 0xEFCDAB89, 0x9CA07D92, 0x20000, 0x8000, 0x2F6FBD72);
    }
    assert Before(x, 4, 0xD6D117B4, 0x7AD956F2, 0x2F6FBD72, 0x344A8432) by {
      Turn(x, 3, 0xEFCDAB89, 0x2F6FBD72, 0x344A8432, 0xD6D117B4, 0xA666012D, 0x400000, 0x400, 0x7AD956F2);
    }
  }

  lemma Steps4(x: seq<Word>)
    requires AbcWords(x) && Before(x, 4, 0xD6D117B4, 0x7AD956F2, 0x2F6FBD72, 0x344A8432)
    ensures Before(x, 8, 0xC73741EF, 0x928D99F6, 0x207DC67B, 0x8BAC3051)
  {
    hide Steps, Before, AbcWords;
    assert Before(x, 5, 0x344A8432, 0xC73741EF, 0x7AD956F2, 0x2F6FBD72) by {
      Turn(x, 4, 0xD6D117B4, 0x7AD956F2, 0x2F6FBD72, 0x344A8432, 0xFA98BBD5, 0x80, 0x2000000, 0xC73741EF);
    }
    assert Before(x, 6, 0x2F6FBD72, 0x8BAC3051, 0xC73741EF, 0x7AD956F2) by {
      Turn(x, 5, 0x344A8432, 0xC73741EF, 0x7AD956F2, 0x2F6FBD72, 0xE62C474E, 0x1000, 0x100000, 0x8BAC3051);
    }
    assert Before(x, 7, 0x7AD956F2, 0x207DC67B, 0x8BAC3051, 0xC73741EF) by {
      Turn(x, 6, 0x2F6FBD72, 0x8BAC3051, 0xC73741EF, 0x7AD956F2, 0xCB154A68, 0x20000, 0x8000, 0x207DC67B);
    }
    assert Before(x, 8, 0xC73741EF, 0x928D99F6, 0x207DC67B, 0x8BAC3051) by {
      Turn(x, 7, 0x7AD956F2, 0x207DC67B, 0x8BAC3051, 0xC73741EF, 0x3F4DEDC8, 0x400000, 0x400, 0x928D99F6);
    }
  }

  lemma Steps8(x: seq<Word>)
    requires AbcWords(x) && Before(x, 8, 0xC73741EF, 0x928D99F6, 0x207DC67B, 0x8BAC3051)
    ensures Before(x, 12, 0x854B3712, 0x5ED49596, 0x3020401C, 0x74E2F284)
  {
    hide Steps, Before, AbcWords;
    assert Before(x, 9, 0x8BAC3051, 0x854B3712, 0x928D99F6, 0x207DC67B) by {
      Turn(x, 8, 0xC73741EF, 0x928D99F6, 0x207DC67B, 0x8BAC3051, 0x39E57B3A, 0x80, 0x2000000, 0x854B3712);
    }
    assert Before(x, 10, 0x207DC67B, 0x74E2F284, 0x854B3712, 0x928D99F6) by {
      Turn(x, 9, 0x8BAC3051, 0x854B3712, 0x928D99F6, 0x207DC67B, 0xB72EF97B, 0x1000, 0x100000, 0x74E2F284);
    }
    assert Before(x, 11, 0x928D99F6, 0x3020401C, 0x74E2F284, 0x854B3712) by {
      Turn(x, 10, 0x207DC67B, 0x74E2F284, 0x854B3712, 0x928D99F6, 0xA6CC5D9E, 0x20000, 0x8000, 0x3020401C);
    }
    assert Before(x, 12, 0x854B3712, 0x5ED49596, 0x3020401C, 0x74E2F284) by {
      Turn(x, 11, 0x928D99F6, 0x3020401C, 0x74E2F284, 0x854B3712, 0xD155E8BA, 0x400000, 0x400, 0x5ED49596);
    }
  }

  lemma Steps12(x: seq<Word>)
    requires AbcWords(x) && Before(x, 12, 0x854B3712, 0x5ED49596, 0x3020401C, 0x74E2F284)
    ensures Before(x, 16, 0xDDA9B9A6, 0x72AFF2E0, 0xE396856B, 0xA1051895)
  {
    hide Steps, Before, AbcWords;
    assert Before(x, 13, 0x74E2F284, 0xDDA9B9A6, 0x5ED49596, 0x3020401C) by {
      Turn(x, 12, 0x854B3712, 0x5ED49596, 0x3020401C, 0x74E2F284, 0x20FDAA48, 0x80, 0x2000000, 0xDDA9B9A6);
    }
    assert Before(x, 14, 0x3020401C, 0xA1051895, 0xDDA9B9A6, 0x5ED49596) by {
      Turn(x, 13, 0x74E2F284, 0xDDA9B9A6, 0x5ED49596, 0x3020401C, 0xEEFC35B5, 0x1000, 0x100000, 0xA1051895);
    }
    assert Before(x, 15, 0x5ED49596, 0xE396856B, 0xA1051895, 0xDDA9B9A6) by {
      Turn(x, 14, 0x3020401C, 0xA1051895, 0xDDA9B9A6, 0x5ED49596, 0xB66B2148, 0x20000, 0x8000, 0xE396856B);
    }
    assert Before(x, 16, 0xDDA9B9A6, 0x72AFF2E0, 0xE396856B, 0xA1051895) by {
      Turn(x, 15, 0x5ED49596, 0xE396856B, 0xA1051895, 0xDDA9B9A6, 0x65B5D63C, 0x400000, 0x400, 0x72AFF2E0);
    }
  }

  lemma Steps16(x: seq<Word>)
    requires AbcWords(x) && Before(x, 16, 0xDDA9B9A6, 0x72AFF2E0, 0xE396856B, 0xA1051895)
    ensures Before(x, 20, 0x3E9E9126, 0xB5B204E4, 0xE25E1652, 0x4A1D804E)
  {
    hide Steps, Before, AbcWords;
    assert Before(x, 17, 0xA1051895, 0x3E9E9126, 0x72AFF2E0, 0xE396856B) by {
      Turn(x, 16, 0xDDA9B9A6, 0x72AFF2E0, 0xE396856B, 0xA1051895, 0x365F74F2, 0x20, 0x8000000, 0x3E9E9126);
    }
    assert Before(x, 18, 0xE396856B, 0x4A1D804E, 0x3E9E9126, 0x72AFF2E0) by {
      Turn(x, 17, 0xA1051895, 0x3E9E9126, 0x72AFF2E0, 0xE396856B, 0x9405BF77, 0x200, 0x800000, 0x4A1D804E);
    }
    assert Before(x, 19, 0x72AFF2E0, 0xE25E1652, 0x4A1D804E, 0x3E9E9126) by {
      Turn(x, 18, 0xE396856B, 0x4A1D804E, 0x3E9E9126, 0x72AFF2E0, 0x58126102, 0x4000, 0x40000, 0xE25E1652);
    }
    assert Before(x, 20, 0x3E9E9126, 0xB5B204E4, 0xE25E1652, 0x4A1D804E) by {
      Turn(x, 19, 0x72AFF2E0, 0xE25E1652, 0x4A1D804E, 0x3E9E9126, 0x3EE92D35, 0x100000, 0x1000, 0xB5B204E4);
    }
  }

  lemma Steps20(x: seq<Word>)
    requires AbcWords(x) && Before(x, 20, 0x3E9E9126, 0xB5B204E4, 0xE25E1652, 0x4A1D804E)
    ensures Before(x, 24, 0x59A8FFDA, 0x47092C07, 0xABFC7920, 0x6D002F1E)
  {
    hide Steps, Before, AbcWords;
    assert Before(x, 21, 0x4A1D804E, 0x59A8FFDA, 0xB5B204E4, 0xE25E1652) by {
      Turn(x, 20, 0x3E9E9126, 0xB5B204E4, 0xE25E1652, 0x4A1D804E, 0xB51FB7D7, 0x20, 0x8000000, 0x59A8FFDA);
    }
    assert Before(x, 22, 0xE25E1652, 0x6D002F1E, 0x59A8FFDA, 0xB5B204E4) by {
      Turn(x, 21, 0x4A1D804E, 0x59A8FFDA, 0xB5B204E4, 0xE25E1652, 0xA209AB97, 0x200, 0x800000, 0x6D002F1E);
    }
    assert Before(x, 23, 0xB5B204E4, 0xABFC7920, 0x6D002F1E, 0x59A8FFDA) by {
      Turn(x, 22, 0xE25E1652, 0x6D002F1E, 0x59A8FFDA, 0xB5B204E4, 0x2808FBF1, 0x4000, 0x40000, 0xABFC7920);
    }
    assert Before(x, 24, 0x59A8FFDA, 0x47092C07, 0xABFC7920, 0x6D002F1E) by {
      Turn(x, 23, 0xB5B204E4, 0xABFC7920, 0x6D002F1E, 0x59A8FFDA, 0xCB2E79B0, 0x100000, 0x1000, 0x47092C07);
    }
  }

  lemma Steps24(x: seq<Word>)
    requires AbcWords(x) && Before(x, 24, 0x59A8FFDA, 0x47092C07, 0xABFC7920, 0x6D002F1E)
    ensures Before(x, 28, 0xB7F268CF, 0x786ACB8F, 0xFE1623B1, 0x09388EFF)
  {
    hide Steps, Before, AbcWords;
    assert Before(x, 25, 0x6D002F1E, 0xB7F268CF, 0x47092C07, 0xABFC7920) by {
      Turn(x, 24, 0x59A8FFDA, 0x47092C07, 0xABFC7920, 0x6D002F1E, 0x438749E6, 0x20, 0x8000000, 0xB7F268CF);
    }
    assert Before(x, 26, 0xABFC7920, 0x09388EFF, 0xB7F268CF, 0x47092C07) by {
      Turn(x, 25, 0x6D002F1E, 0xB7F268CF, 0x47092C07, 0xABFC7920, 0x1828A313, 0x200, 0x800000, 0x09388EFF);
    }
    assert Before(x, 27, 0x47092C07, 0xFE1623B1, 0x09388EFF, 0xB7F268CF) by {
      Turn(x, 26, 0xABFC7920, 0x09388EFF, 0xB7F268CF, 0x47092C07, 0x52CBD376, 0x4000, 0x40000, 0xFE1623B1);
    }
    assert Before(x, 28, 0xB7F268CF, 0x786ACB8F, 0xFE1623B1, 0x09388EFF) by {
      Turn(x, 27, 0x47092C07, 0xFE1623B1, 0x09388EFF, 0xB7F268CF, 0x4A7DE7A5, 0x100000, 0x1000, 0x786ACB8F);
    }
  }

  lemma Steps28(x: seq<Word>)
    requires AbcWords(x) && Before(x, 28, 0xB7F268CF, 0x786ACB8F, 0xFE1623B1, 0x09388EFF)
    ensures Before(x, 32, 0x790A77FB, 0x726342D3, 0xA62884AA, 0x9F47E4F8)
  {
    hide Steps, Before, AbcWords;
    assert Before(x, 29, 0x09388EFF, 0x790A77FB, 0x786ACB8F, 0xFE1623B1) by {
      Turn(x, 28, 0xB7F268CF, 0x786ACB8F, 0xFE1623B1, 0x09388EFF, 0x6004FD63, 0x20, 0x8000000, 0x790A77FB);
    }
    assert Before(x, 30, 0xFE1623B1, 0x9F47E4F8, 0x790A77FB, 0x786ACB8F) by {
      Turn(x, 29, 0x09388EFF, 0x790A77FB, 0x786ACB8F, 0xFE1623B1, 0x7E931EB6, 0x200, 0x800000, 0x9F47E4F8);
    }
    assert Before(x, 31, 0x786ACB8F, 0xA62884AA, 0x9F47E4F8, 0x790A77FB) by {
      Turn(x, 30, 0xFE1623B1, 0x9F47E4F8, 0x790A77FB, 0x786ACB8F, 0x7EC81B82, 0x4000, 0x40000, 0xA62884AA);
    }
    assert Before(x, 32, 0x790A77FB, 0x726342D3, 0xA62884AA, 0x9F47E4F8) by {
      Turn(x, 31, 0x786ACB8F, 0xA62884AA, 0x9F47E4F8, 0x790A77FB, 0xABE29CC3, 0x100000, 0x1000, 0x726342D3);
    }
  }

  lemma Steps32(x: seq<Word>)
    requires AbcWords(x) && Before(x, 32, 0x790A77FB, 0x726342D3, 0xA62884AA, 0x9F47E4F8)
    ensures Before(x, 36, 0xB3707EBF, 0x3B0875C7, 0x8D212FF5, 0x60127B2E)
  {
    hide Steps, Before, AbcWords;
    assert Before(x, 33, 0x9F47E4F8, 0xB3707EBF, 0x726342D3, 0xA62884AA) by {
      Turn(x, 32, 0x790A77FB, 0x726342D3, 0xA62884AA, 0x9F47E4F8, 0xC410D3BE, 0x10, 0x10000000, 0xB3707EBF);
    }
    assert Before(x, 34, 0xA62884AA, 0x60127B2E, 0xB3707EBF, 0x726342D3) by {
      Turn(x, 33, 0x9F47E4F8, 0xB3707EBF, 0x726342D3, 0xA62884AA, 0x8DF5943F, 0x800, 0x200000, 0x60127B2E);
    }
    assert Before(x, 35, 0x726342D3, 0x8D212FF5, 0x60127B2E, 0xB3707EBF) by {
      Turn(x, 34, 0xA62884AA, 0x60127B2E, 0xB3707EBF, 0x726342D3, 0xB4C72D0E, 0x10000, 0x10000, 0x8D212FF5);
    }
    assert Before(x, 36, 0xB3707EBF, 0x3B0875C7, 0x8D212FF5, 0x60127B2E) by {
      Turn(x, 35, 0x726342D3, 0x8D212FF5, 0x60127B2E, 0xB3707EBF, 0xCE8BA55B, 0x800000, 0x200, 0x3B0875C7);
    }
  }

  lemma Steps36(x: seq<Word>)
    requires AbcWords(x) && Before(x, 36, 0xB3707EBF, 0x3B0875C7, 0x8D212FF5, 0x60127B2E)
    ensures Before(x, 40, 0x21B117B9, 0x5A2F5EA5, 0x3575227E, 0x6E7429D5)
  {
    hide Steps, Before, AbcWords;
    assert Before(x, 37, 0x60127B2E, 0x21B117B9, 0x3B0875C7, 0x8D212FF5) by {
      Turn(x, 36, 0xB3707EBF, 0x3B0875C7, 0x8D212FF5, 0x60127B2E, 0x2E6A8A1F, 0x10, 0x10000000, 0x21B117B9);
    }
    assert Before(x, 38, 0x8D212FF5, 0x6E7429D5, 0x21B117B9, 0x3B0875C7) by {
      Turn(x, 37, 0x60127B2E, 0x21B117B9, 0x3B0875C7, 0x8D212FF5, 0x43899862, 0x800, 0x200000, 0x6E7429D5);
    }
    assert Before(x, 39, 0x3B0875C7, 0x3575227E, 0x6E7429D5, 0x21B117B9) by {
      Turn(x, 38, 0x8D212FF5, 0x6E7429D5, 0x21B117B9, 0x3B0875C7, 0xF8A9C700, 0x10000, 0x10000, 0x3575227E);
    }
    assert Before(x, 40, 0x21B117B9, 0x5A2F5EA5, 0x3575227E, 0x6E7429D5) by {
      Turn(x, 39, 0x3B0875C7, 0x3575227E, 0x6E7429D5, 0x21B117B9, 0x74784E49, 0x800000, 0x200, 0x5A2F5EA5);
    }
  }

  lemma Steps40(x: seq<Word>)
    requires AbcWords(x) && Before(x, 40, 0x21B117B9, 0x5A2F5EA5, 0x3575227E, 0x6E7429D5)
    ensures Before(x, 44, 0x11DE1779, 0x4C6124F4, 0x31C465CA, 0xFADCAA38)
  {
    hide Steps, Before, AbcWords;
    assert Before(x, 41, 0x6E7429D5, 0x11DE1779, 0x5A2F5EA5, 0x3575227E) by {
      Turn(x, 40, 0x21B117B9, 0x5A2F5EA5, 0x3575227E, 0x6E7429D5, 0x4B7AEB8D, 0x10, 0x10000000, 0x11DE1779);
    }
    assert Before(x, 42, 0x3575227E, 0xFADCAA38, 0x11DE1779, 0x5A2F5EA5) by {
      Turn(x, 41, 0x6E7429D5, 0x11DE1779, 0x5A2F5EA5, 0x3575227E, 0x57FD1FD2, 0x800, 0x200000, 0xFADCAA38);
    }
    assert Before(x, 43, 0x5A2F5EA5, 0x31C465CA, 0xFADCAA38, 0x11DE1779) by {
      Turn(x, 42, 0x3575227E, 0xFADCAA38, 0x11DE1779, 0x5A2F5EA5, 0xBB9236E7, 0x10000, 0x10000, 0x31C465CA);
    }
    assert Before(x, 44, 0x11DE1779, 0x4C6124F4, 0x31C465CA, 0xFADCAA38) by {
      Turn(x, 43, 0x5A2F5EA5, 0x31C465CA, 0xFADCAA38, 0x11DE1779, 0x397E5435, 0x800000, 0x200, 0x4C6124F4);
    }
  }

  lemma Steps44(x: seq<Word>)
    requires AbcWords(x) && Before(x, 44, 0x11DE1779, 0x4C6124F4, 0x31C465CA, 0xFADCAA38)
    ensures Before(x, 48, 0x7F2E507B, 0x7BEB9700, 0x8FAE6399, 0x99D9679D)
  {
    hide Steps, Before, AbcWords;
    assert Before(x, 45, 0xFADCAA38, 0x7F2E507B, 0x4C6124F4, 0x31C465CA) by {
      Turn(x, 44, 0x11DE1779, 0x4C6124F4, 0x31C465CA, 0xFADCAA38, 0x732CD2B8, 0x10, 0x10000000, 0x7F2E507B);
    }
    assert Before(x, 46, 0x31C465CA, 0x99D9679D, 0x7F2E507B, 0x4C6124F4) by {
      Turn(x, 45, 0xFADCAA38, 0x7F2E507B, 0x4C6124F4, 0x31C465CA, 0xE4435562, 0x800, 0x200000, 0x99D9679D);
    }
    assert Before(x, 47, 0x4C6124F4, 0x8FAE6399, 0x99D9679D, 0x7F2E507B) by {
      Turn(x, 46, 0x31C465CA, 0x99D9679D, 0x7F2E507B, 0x4C6124F4, 0xFBFCF5D4, 0x10000, 0x10000, 0x8FAE6399);
    }
    assert Before(x, 48, 0x7F2E507B, 0x7BEB9700, 0x8FAE6399, 0x99D9679D) by {
      Turn(x, 47, 0x4C6124F4, 0x8FAE6399, 0x99D9679D, 0x7F2E507B, 0x7A66CFD8, 0x800000, 0x200, 0x7BEB9700);
    }
  }

  lemma Steps48(x: seq<Word>)
    requires AbcWords(x) && Before(x, 48, 0x7F2E507B, 0x7BEB9700, 0x8FAE6399, 0x99D9679D)
    ensures Before(x, 52, 0x7B201DF8, 0x8BF025C4, 0xB298CEFD, 0xF4E8E96E)
  {
    hide Steps, Before, AbcWords;
    assert Before(x, 49, 0x99D9679D, 0x7B201DF8, 0x7BEB9700, 0x8FAE6399) by {
      Turn(x, 48, 0x7F2E507B, 0x7BEB9700, 0x8FAE6399, 0x99D9679D, 0xE3FCD21B, 0x40, 0x4000000, 0x7B201DF8);
    }
    assert Before(x, 50, 0x8FAE6399, 0xF4E8E96E, 0x7B201DF8, 0x7BEB9700) by {
      Turn(x, 49, 0x99D9679D, 0x7B201DF8, 0x7BEB9700, 0x8FAE6399, 0xDD9E7232, 0x400, 0x400000, 0xF4E8E96E);
    }
    assert Before(x, 51, 0x7BEB9700, 0xB298CEFD, 0xF4E8E96E, 0x7B201DF8) by {
      Turn(x, 50, 0x8FAE6399, 0xF4E8E96E, 0x7B201DF8, 0x7BEB9700, 0xCB1F7B5F, 0x8000, 0x20000, 0xB298CEFD);
    }
    assert Before(x, 52, 0x7B201DF8, 0x8BF025C4, 0xB298CEFD, 0xF4E8E96E) by {
      Turn(x, 51, 0x7BEB9700, 0xB298CEFD, 0xF4E8E96E, 0x7B201DF8, 0xBAB63ECA, 0x200000, 0x800, 0x8BF025C4);
    }
  }

  lemma Steps52(x: seq<Word>)
    requires AbcWords(x) && Before(x, 52, 0x7B201DF8, 0x8BF025C4, 0xB298CEFD, 0xF4E8E96E)
    ensures Before(x, 56, 0x06CC5E8A, 0x3BFA2C27, 0x7D632DD0, 0x5B0D97AA)
  {
    hide Steps, Before, AbcWords;
    assert Before(x, 53, 0xF4E8E96E, 0x06CC5E8A, 0x8BF025C4, 0xB298CEFD) by {
      Turn(x, 52, 0x7B201DF8, 0x8BF025C4, 0xB298CEFD, 0xF4E8E96E, 0x19EB70E3, 0x40, 0x4000000, 0x06CC5E8A);
    }
    assert Before(x, 54, 0xB298CEFD, 0x5B0D97AA, 0x06CC5E8A, 0x8BF025C4) by {
      Turn(x, 53, 0xF4E8E96E, 0x06CC5E8A, 0x8BF025C4, 0xB298CEFD, 0x4815104E, 0x400, 0x400000, 0x5B0D97AA);
    }
    assert Before(x, 55, 0x8BF025C4, 0x7D632DD0, 0x5B0D97AA, 0x06CC5E8A) by {
      Turn(x, 54, 0xB298CEFD, 0x5B0D97AA, 0x06CC5E8A, 0x8BF025C4, 0x2C4C44AB, 0x8000, 0x20000, 0x7D632DD0);
    }
    assert Before(x, 56, 0x06CC5E8A, 0x3BFA2C27, 0x7D632DD0, 0x5B0D97AA) by {
      Turn(x, 55, 0x8BF025C4, 0x7D632DD0, 0x5B0D97AA, 0x06CC5E8A, 0xB7F2BDF4, 0x200000, 0x800, 0x3BFA2C27);
    }
  }

  lemma Steps56(x: seq<Word>)
    requires AbcWords(x) && Before(x, 56, 0x06CC5E8A, 0x3BFA2C27, 0x7D632DD0, 0x5B0D97AA)
    ensures Before(x, 60, 0x7F81CC35, 0x7327D604, 0x4F9DBE3F, 0x094454AB)
  {
    hide Steps, Before, AbcWords;
    assert Before(x, 57, 0x5B0D97AA, 0x7F81CC35, 0x3BFA2C27, 0x7D632DD0) by {
      Turn(x, 56, 0x06CC5E8A, 0x3BFA2C27, 0x7D632DD0, 0x5B0D97AA, 0x390E1E80, 0x40, 0x4000000, 0x7F81CC35);
    }
    assert Before(x, 58, 0x7D632DD0, 0x094454AB, 0x7F81CC35, 0x3BFA2C27) by {
      Turn(x, 57, 0x5B0D97AA, 0x7F81CC35, 0x3BFA2C27, 0x7D632DD0, 0x1DA270A2, 0x400, 0x400000, 0x094454AB);
    }
    assert Before(x, 59, 0x3BFA2C27, 0x4F9DBE3F, 0x094454AB, 0x7F81CC35) by {
      Turn(x, 58, 0x7D632DD0, 0x094454AB, 0x7F81CC35, 0x3BFA2C27, 0xD3288CB2, 0x8000, 0x20000, 0x4F9DBE3F);
    }
    assert Before(x, 60, 0x7F81CC35, 0x7327D604, 0x4F9DBE3F, 0x094454AB) by {
      Turn(x, 59, 0x3BFA2C27, 0x4F9DBE3F, 0x094454AB, 0x7F81CC35, 0x50BE291C, 0x200000, 0x800, 0x7327D604);
    }
  }

  lemma Steps60(x: seq<Word>)
    requires AbcWords(x) && Before(x, 60, 0x7F81CC35, 0x7327D604, 0x4F9DBE3F, 0x094454AB)
    ensures Before(x, 64, 0x310ADE8F, 0xC08226B3, 0xE484B9D8, 0x624D8CB2)
  {
    hide Steps, Before, AbcWords;
    assert Before(x, 61, 0x094454AB, 0x310ADE8F, 0x7327D604, 0x4F9DBE3F) by {
      Turn(x, 60, 0x7F81CC35, 0x7327D604, 0x4F9DBE3F, 0x094454AB, 0x2EF78C22, 0x40, 0x4000000, 0x310ADE8F);
    }
    assert Before(x, 62, 0x4F9DBE3F, 0x624D8CB2, 0x310ADE8F, 0x7327D604) by {
      Turn(x, 61, 0x094454AB, 0x310ADE8F, 0x7327D604, 0x4F9DBE3F, 0x88CC50AB, 0x400, 0x400000, 0x624D8CB2);
    }
    assert Before(x, 63, 0x7327D604, 0xE484B9D8, 0x624D8CB2, 0x310ADE8F) by {
      Turn(x, 62, 0x4F9DBE3F, 0x624D8CB2, 0x310ADE8F, 0x7327D604, 0x5A4D046E, 0x8000, 0x20000, 0xE484B9D8);
    }
    assert Before(x, 64, 0x310ADE8F, 0xC08226B3, 0xE484B9D8, 0x624D8CB2) by {
      Turn(x, 63, 0x7327D604, 0xE484B9D8, 0x624D8CB2, 0x310ADE8F, 0xEB66DEDF, 0x200000, 0x800, 0xC08226B3);
    }
  }

  lemma Starts(x: seq<Word>)
    requires |x| == 16
    ensures Before(x, 0, 0x67452301, 0xEFCDAB89, 0x98BADCFE, 0x10325476)
  {}

  lemma AbcLength(x: seq<Word>)
    requires AbcWords(x)
    ensures |x| == 16
  {}

  lemma AllSteps(x: seq<Word>)
    requires AbcWords(x)
    ensures Before(x, 64, 0x310ADE8F, 0xC08226B3, 0xE484B9D8, 0x624D8CB2)
  {
    hide *;
    AbcLength(x);
    Starts(x);
    Steps0(x);
    Steps4(x);
    Steps8(x);
    Steps12(x);
    Steps16(x);
    Steps20(x);
    Steps24(x);
    Steps28(x);
    Steps32(x);
    Steps36(x);
    Steps40(x);
    Steps44(x);
    Steps48(x);
    Steps52(x);
    Steps56(x);
    Steps60(x);
  }

  const ABC: seq<Byte> := [0x61, 0x62, 0x63]

  lemma LengthBytes()
    ensures EightBytes(24) == [24, 0, 0, 0, 0, 0, 0, 0]
  {
    forall k | 0 <= k < 8 ensures Digit(24, k) == if k == 0 then 24 else 0 { OneDigit(24, k); }
    hide Digit;
  }

  /** The padded message is one block. */
  lemma PaddedAbc()
    ensures var p := PaddedAs(ABC, 3);
            |p| == 64 && p[0] == 0x61 && p[1] == 0x62 && p[2] == 0x63 && p[3] == 0x80 && p[56] == 24
            && forall i :: 4 <= i < 64 && i != 56 ==> p[i] == 0
  {
    LengthBytes();
    hide EightBytes;
  }

  lemma DecodedAbc(block: seq<Byte>)
    requires |block| == 64 && block[0] == 0x61 && block[1] == 0x62 && block[2] == 0x63 && block[3] == 0x80
    requires block[56] == 24 && forall i :: 4 <= i < 64 && i != 56 ==> block[i] == 0
    ensures AbcWords(Decode(block))
  {}

  /** The four bytes of a word are its digits in base 256, the lowest first. */
  lemma WordBytesIs(a: Byte, b: Byte, c: Byte, d: Byte)
    ensures WordBytes(0x100_0000 * a + 0x1_0000 * b + 0x100 * c + d) == [d, c, b, a]
  {
    DigitsOf(a, b, c, d);
    hide Digit;
  }

  lemma SumsTo(r: Regs)
    requires r == Regs(0x310ADE8F, 0xC08226B3, 0xE484B9D8, 0x624D8CB2)
    ensures Sum(H0, r) == Regs(0x98500190, 0xB04FD23C, 0x7D3F96D6, 0x727FE128)
  {}

  lemma BytesTo()
    ensures DigestBytes(Regs(0x98500190, 0xB04FD23C, 0x7D3F96D6, 0x727FE128))
            == [0x90, 0x01, 0x50, 0x98, 0x3C, 0xD2, 0x4F, 0xB0,
                0xD6, 0x96, 0x3F, 0x7D, 0x28, 0xE1, 0x7F, 0x72]
  {
    WordBytesIs(0x98, 0x50, 0x01, 0x90);
    WordBytesIs(0xB0, 0x4F, 0xD2, 0x3C);
    WordBytesIs(0x7D, 0x3F, 0x96, 0xD6);
    WordBytesIs(0x72, 0x7F, 0xE1, 0x28);
    hide WordBytes;
  }

  lemma CompressIs(block: seq<Byte>, x: seq<Word>)
    requires |block| == 64 && x == Decode(block) && |x| == 16
    ensures Hash(block) == Sum(H0, Steps(H0, x, 64))
  {
    assert block[..0] == [] && block[0..] == block;
    hide Decode, Steps, Sum;
  }

  /** MD5 of "abc". */
  lemma DigestOfAbc()
    ensures Digest(ABC)
            == [0x90, 0x01, 0x50, 0x98, 0x3C, 0xD2, 0x4F, 0xB0,
                0xD6, 0x96, 0x3F, 0x7D, 0x28, 0xE1, 0x7F, 0x72]
  {
    var block := PaddedAs(ABC, 3);
    var x := Decode(block);
    PaddedAbc();
    DecodedAbc(block);
    AllSteps(x);
    SumsTo(Steps(H0, x, 64));
    CompressIs(block, x);
    BytesTo();
    hide PaddedAs, Decode, Steps, DigestBytes;
  }
}
