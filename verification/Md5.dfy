/** MD5 as section 3 of RFC 1321 defines it on a whole message. */
module Md5Spec {
  import opened Blocks
  import opened Words

  datatype Regs = Regs(a: Word, b: Word, c: Word, d: Word)

  const H0 := Regs(0x67452301, 0xEFCDAB89, 0x98BADCFE, 0x10325476)

  /** The auxiliary function of step `i`. */
  function F(i: nat, x: Word, y: Word, z: Word): Word {
    if i < 16 then Or(And(x, y), And(Not(x), z))
    else if i < 32 then Or(And(x, z), And(y, Not(z)))
    else if i < 48 then Xor(Xor(x, y), z)
    else Xor(y, Or(x, Not(z)))
  }

  /** Which word of the block step `i` takes. */
  function KIndex(i: nat): (k: nat)
    ensures k < 16
  {
    if i < 16 then i % 16 else if i < 32 then (1 + 5 * i) % 16 else if i < 48 then (5 + 3 * i) % 16 else (7 * i) % 16
  }

  /** By how much step `i` rotates. */
  function ShiftOf(i: nat): (s: nat)
    ensures 0 < s < 32
  {
    if i < 16 then (if i % 4 == 0 then 7 else if i % 4 == 1 then 12 else if i % 4 == 2 then 17 else 22)
    else if i < 32 then (if i % 4 == 0 then 5 else if i % 4 == 1 then 9 else if i % 4 == 2 then 14 else 20)
    else if i < 48 then (if i % 4 == 0 then 4 else if i % 4 == 1 then 11 else if i % 4 == 2 then 16 else 23)
    else (if i % 4 == 0 then 6 else if i % 4 == 1 then 10 else if i % 4 == 2 then 15 else 21)
  }

  function T1(i: nat): Word {
    match i
    case 0 => 0xD76AA478
    case 1 => 0xE8C7B756
    case 2 => 0x242070DB
    case 3 => 0xC1BDCEEE
    case 4 => 0xF57C0FAF
    case 5 => 0x4787C62A
    case 6 => 0xA8304613
    case 7 => 0xFD469501
    case 8 => 0x698098D8
    case 9 => 0x8B44F7AF
    case 10 => 0xFFFF5BB1
    case 11 => 0x895CD7BE
    case 12 => 0x6B901122
    case 13 => 0xFD987193
    case 14 => 0xA679438E
    case _ => 0x49B40821
  }

  function T2(i: nat): Word {
    match i
    case 16 => 0xF61E2562
    case 17 => 0xC040B340
    case 18 => 0x265E5A51
    case 19 => 0xE9B6C7AA
    case 20 => 0xD62F105D
    case 21 => 0x02441453
    case 22 => 0xD8A1E681
    case 23 => 0xE7D3FBC8
    case 24 => 0x21E1CDE6
    case 25 => 0xC33707D6
    case 26 => 0xF4D50D87
    case 27 => 0x455A14ED
    case 28 => 0xA9E3E905
    case 29 => 0xFCEFA3F8
    case 30 => 0x676F02D9
    case _ => 0x8D2A4C8A
  }

  function T3(i: nat): Word {
    match i
    case 32 => 0xFFFA3942
    case 33 => 0x8771F681
    case 34 => 0x6D9D6122
    case 35 => 0xFDE5380C
    case 36 => 0xA4BEEA44
    case 37 => 0x4BDECFA9
    case 38 => 0xF6BB4B60
    case 39 => 0xBEBFBC70
    case 40 => 0x289B7EC6
    case 41 => 0xEAA127FA
    case 42 => 0xD4EF3085
    case 43 => 0x04881D05
    case 44 => 0xD9D4D039
    case 45 => 0xE6DB99E5
    case 46 => 0x1FA27CF8
    case _ => 0xC4AC5665
  }

  function T4(i: nat): Word {
    match i
    case 48 => 0xF4292244
    case 49 => 0x432AFF97
    case 50 => 0xAB9423A7
    case 51 => 0xFC93A039
    case 52 => 0x655B59C3
    case 53 => 0x8F0CCC92
    case 54 => 0xFFEFF47D
    case 55 => 0x85845DD1
    case 56 => 0x6FA87E4F
    case 57 => 0xFE2CE6E0
    case 58 => 0xA3014314
    case 59 => 0x4E0811A1
    case 60 => 0xF7537E82
    case 61 => 0xBD3AF235
    case 62 => 0x2AD7D2BB
    case _ => 0xEB86D391
  }

  /** The sine table, round by round. */
  function T(i: nat): Word {
    if i < 16 then T1(i) else if i < 32 then T2(i) else if i < 48 then T3(i) else T4(i)
  }

  /** A word from four bytes, lowest first. */
  function LittleEndian(b0: Byte, b1: Byte, b2: Byte, b3: Byte): Word {
    b0 + 0x100 * b1 + 0x1_0000 * b2 + 0x100_0000 * b3
  }

  function Decode(block: seq<Byte>): (x: seq<Word>)
    requires |block| == 64
    ensures |x| == 16
  {
    seq(16, i requires 0 <= i < 16 => LittleEndian(block[4 * i], block[4 * i + 1], block[4 * i + 2], block[4 * i + 3]))
  }

  /** Step `i`: the register it changes is the first one; it comes out second, the next step's first being
      the last one. */
  function Step(i: nat, r: Regs, x: seq<Word>): Regs
    requires |x| == 16
  {
    Regs(r.d, Add(r.b, Rotl(Add(Add(Add(r.a, F(i, r.b, r.c, r.d)), x[KIndex(i)]), T(i)), ShiftOf(i))), r.b, r.c)
  }

  /** The first `n` steps. */
  function Steps(r: Regs, x: seq<Word>, n: nat): Regs
    requires |x| == 16
  {
    if n == 0 then r else Step(n - 1, Steps(r, x, n - 1), x)
  }

  function Sum(h: Regs, r: Regs): Regs {
    Regs(Add(h.a, r.a), Add(h.b, r.b), Add(h.c, r.c), Add(h.d, r.d))
  }

  /** All 64 steps, four for each word. */
  function Compress(h: Regs, block: seq<Byte>): Regs
    requires |block| == 64
  {
    var x := Decode(block);
    Sum(h, Steps(h, x, 4 * |x|))
  }

  /** The registers after all blocks of `m`. */
  function Hash(m: seq<Byte>): Regs
    requires |m| % 64 == 0
  {
    if m == [] then H0 else Compress(Hash(m[..|m| - 64]), m[|m| - 64..])
  }

  /** The low 64 bits of a number in 8 bytes, lowest first. */
  function EightBytes(x: nat): (s: seq<Byte>)
    ensures |s| == 8
  {
    seq(8, i requires 0 <= i < 8 => Digit(x, i))
  }

  /** A one bit, zeros up to 56 bytes past a block boundary, and a length in bits. */
  function PaddedAs(m: seq<Byte>, bytes: nat): (p: seq<Byte>)
    ensures |p| % 64 == 0
  {
    m + [0x80] + Zeros((119 - |m| % 64) % 64) + EightBytes(8 * bytes)
  }

  /** The four low bytes, lowest first. */
  function WordBytes(x: nat): (s: seq<Byte>)
    ensures |s| == 4
  {
    [Digit(x, 0), Digit(x, 1), Digit(x, 2), Digit(x, 3)]
  }

  function DigestBytes(h: Regs): (s: seq<Byte>)
    ensures |s| == 16
  {
    WordBytes(h.a) + WordBytes(h.b) + WordBytes(h.c) + WordBytes(h.d)
  }

  /** The digest of a message if its length were this number of bytes. */
  function DigestAs(m: seq<Byte>, bytes: nat): (s: seq<Byte>)
    ensures |s| == 16
  {
    DigestBytes(Hash(PaddedAs(m, bytes)))
  }

  /** The message digest. */
  function Digest(m: seq<Byte>): (s: seq<Byte>)
    ensures |s| == 16
  {
    DigestAs(m, |m|)
  }
}

/** The implementation of src/external/md5.c, whose words have 64 bits. */
module Md5 {
  import opened MachineInts
  import opened Bitwise
  import opened Blocks
  import Masks
  import opened Md5Spec
  import opened Words

  /** `unsigned long int` */
  type Long = n: int | 0 <= n < 0x1_0000_0000_0000_0000

  function And64(a: Long, b: Long): Long {
    BitsRange(AND, 64, a, b);
    PowerOf32();
    Bits(AND, 64, a, b)
  }

  function Or64(a: Long, b: Long): Long {
    BitsRange(OR, 64, a, b);
    PowerOf32();
    Bits(OR, 64, a, b)
  }

  function Xor64(a: Long, b: Long): Long {
    BitsRange(XOR, 64, a, b);
    PowerOf32();
    Bits(XOR, 64, a, b)
  }

  function Not64(a: Long): Long { 0xFFFF_FFFF_FFFF_FFFF - a }

  function Add64(a: Long, b: Long): Long { (a + b) % 0x1_0000_0000_0000_0000 }

  function Shl64(a: Long, n: nat): Long
    decreases n
  {
    if n == 0 then a else Shl64((2 * a) % 0x1_0000_0000_0000_0000, n - 1)
  }

  /** The word a long stands for. */
  function Low(x: Long): Word { x % 0x1_0000_0000 }

  lemma LowBits(a: Long, b: Long)
    ensures Low(And64(a, b)) == And(Low(a), Low(b))
    ensures Low(Or64(a, b)) == Or(Low(a), Low(b))
    ensures Low(Xor64(a, b)) == Xor(Low(a), Low(b))
  {
    PowerOf32();
    BitsLow(AND, 64, 32, a, b);
    BitsLow(OR, 64, 32, a, b);
    BitsLow(XOR, 64, 32, a, b);
    hide Masks.Pow2, Bits;
  }

  lemma Congruent(x: int, y: int, k: int)
    requires x == y + 0x1_0000_0000 * k
    ensures x % 0x1_0000_0000 == y % 0x1_0000_0000
  {}

  lemma LowAdd(a: Long, b: Long)
    ensures Low(Add64(a, b)) == Add(Low(a), Low(b))
  {
    var q, g, h := (a + b) / 0x1_0000_0000_0000_0000, a / 0x1_0000_0000, b / 0x1_0000_0000;
    Congruent((a + b) % 0x1_0000_0000_0000_0000, Low(a) + Low(b), g + h - 0x1_0000_0000 * q);
  }

  lemma LowNot(a: Long)
    ensures Low(Not64(a)) == Not(Low(a))
  {
    Congruent(Not64(a), Not(Low(a)), 0xFFFF_FFFF - a / 0x1_0000_0000);
  }

  lemma LowDouble(a: Long)
    ensures Low((2 * a) % 0x1_0000_0000_0000_0000) == (2 * Low(a)) % 0x1_0000_0000
  {
    var q, h := (2 * a) / 0x1_0000_0000_0000_0000, a / 0x1_0000_0000;
    Congruent((2 * a) % 0x1_0000_0000_0000_0000, 2 * Low(a), 2 * h - 0x1_0000_0000 * q);
  }

  lemma LowWord(w: Word)
    ensures Low(w) == w
  {}

  lemma {:induction false} LowShl(a: Long, n: nat)
    ensures Low(Shl64(a, n)) == Shl(Low(a), n)
    decreases n
  {
    if n == 0 {
    } else {
      LowDouble(a);
      LowShl((2 * a) % 0x1_0000_0000_0000_0000, n - 1);
      hide Low;
    }
  }

  /** The macro `S`. */
  function S(x: Long, n: nat): Long
    requires 0 < n < 32
  {
    Or64(Shl64(x, n), Shr(x % 0x1_0000_0000, 32 - n))
  }

  lemma LowS(x: Long, n: nat)
    requires 0 < n < 32
    ensures Low(S(x, n)) == Rotl(Low(x), n)
  {
    LowShl(x, n);
    LowWord(Shr(x % 0x1_0000_0000, 32 - n));
    hide Shl64, Shl, Or64, Or, Words.Shr;
    LowBits(Shl64(x, n), Shr(x % 0x1_0000_0000, 32 - n));
  }

  /** The registers as the standard has them. */
  function Lows(a: Long, b: Long, c: Long, d: Long): Regs {
    Regs(Low(a), Low(b), Low(c), Low(d))
  }

  /** The macro `P`, with the value of its auxiliary function. */
  function P(a: Long, b: Long, f: Long, x: Word, s: nat, t: Word): Long
    requires 0 < s < 32
  {
    Add64(S(Add64(a, Add64(Add64(f, x), t)), s), b)
  }

  lemma AddIs(a: Word, b: Word)
    ensures Add(a, b) == if a + b < 0x1_0000_0000 then a + b else a + b - 0x1_0000_0000
  {}

  lemma AddLaws(a: Word, b: Word, c: Word, d: Word)
    ensures Add(a, Add(Add(b, c), d)) == Add(Add(Add(a, b), c), d)
  {
    AddIs(b, c);
    AddIs(Add(b, c), d);
    AddIs(a, Add(Add(b, c), d));
    AddIs(a, b);
    AddIs(Add(a, b), c);
    AddIs(Add(Add(a, b), c), d);
    hide Add;
  }

  lemma AddSwap(a: Word, b: Word)
    ensures Add(a, b) == Add(b, a)
  {}

  /** A step on longs does to the low words what the standard's step does. */
  lemma StepLow(i: nat, a: Long, b: Long, c: Long, d: Long, f: Long, x: seq<Word>)
    requires |x| == 16 && Low(f) == F(i, Low(b), Low(c), Low(d))
    ensures Lows(d, P(a, b, f, x[KIndex(i)], ShiftOf(i), T(i)), b, c) == Step(i, Lows(a, b, c, d), x)
  {
    var xk, t, s := x[KIndex(i)], T(i), ShiftOf(i);
    hide *;
    var fx := Add64(f, xk);
    var fxt := Add64(fx, t);
    var sum := Add64(a, fxt);
    LowAdd(f, xk);
    LowAdd(fx, t);
    LowAdd(a, fxt);
    LowS(sum, s);
    LowAdd(S(sum, s), b);
    LowWord(xk);
    LowWord(t);
    AddLaws(Low(a), Low(f), xk, t);
    AddSwap(Low(S(sum, s)), Low(b));
  }

  // ---- the auxiliary functions: the first two have other forms than the standard's ----

  lemma SelectWord(x: Word, y: Word, z: Word)
    ensures Xor(z, And(x, Xor(y, z))) == Or(And(x, y), And(Not(x), z))
    ensures Xor(y, And(z, Xor(x, y))) == Or(And(x, z), And(y, Not(z)))
  {
    PowerOf32();
    Select(32, x, y, z);
    SelectBack(32, x, y, z);
    hide Bits, Masks.Pow2;
  }

  lemma LowF(i: nat, b: Long, c: Long, d: Long)
    requires i < 16
    ensures Low(Xor64(d, And64(b, Xor64(c, d)))) == F(i, Low(b), Low(c), Low(d))
  {
    SelectWord(Low(b), Low(c), Low(d));
    hide Xor64, Xor, And64, And, Or, Not, Low;
    LowBits(c, d);
    LowBits(b, Xor64(c, d));
    LowBits(d, And64(b, Xor64(c, d)));
  }

  lemma LowG(i: nat, b: Long, c: Long, d: Long)
    requires 16 <= i < 32
    ensures Low(Xor64(c, And64(d, Xor64(b, c)))) == F(i, Low(b), Low(c), Low(d))
  {
    SelectWord(Low(b), Low(c), Low(d));
    hide Xor64, Xor, And64, And, Or, Not, Low;
    LowBits(b, c);
    LowBits(d, Xor64(b, c));
    LowBits(c, And64(d, Xor64(b, c)));
  }

  lemma LowH(i: nat, b: Long, c: Long, d: Long)
    requires 32 <= i < 48
    ensures Low(Xor64(Xor64(b, c), d)) == F(i, Low(b), Low(c), Low(d))
  {
    LowBits(b, c);
    LowBits(Xor64(b, c), d);
    hide Xor64, Xor, Low;
  }

  lemma LowI(i: nat, b: Long, c: Long, d: Long)
    requires 48 <= i
    ensures Low(Xor64(c, Or64(b, Not64(d)))) == F(i, Low(b), Low(c), Low(d))
  {
    LowNot(d);
    LowBits(b, Not64(d));
    LowBits(c, Or64(b, Not64(d)));
    hide Xor64, Xor, Or64, Or, Not64, Not, Low;
  }

  /** `P` in round 1. */
  method StepF(a: Long, b: Long, c: Long, d: Long, k: nat, s: nat, t: Word, ghost i: nat, x: seq<Word>, ghost r0: Regs)
    returns (r: Long)
    requires 0 <= i < 16 && |x| == 16 && k == KIndex(i) && s == ShiftOf(i) && t == T(i)
    requires Lows(a, b, c, d) == Steps(r0, x, i)
    ensures Lows(d, r, b, c) == Steps(r0, x, i + 1)
  {
    LowF(i, b, c, d);
    StepLow(i, a, b, c, d, Xor64(d, And64(b, Xor64(c, d))), x);
    hide Step, P, Lows, Xor64, And64, Or64, T, KIndex, ShiftOf;
    r := P(a, b, Xor64(d, And64(b, Xor64(c, d))), x[k], s, t);
  }

  /** `P` in round 2. */
  method StepG(a: Long, b: Long, c: Long, d: Long, k: nat, s: nat, t: Word, ghost i: nat, x: seq<Word>, ghost r0: Regs)
    returns (r: Long)
    requires 16 <= i < 32 && |x| == 16 && k == KIndex(i) && s == ShiftOf(i) && t == T(i)
    requires Lows(a, b, c, d) == Steps(r0, x, i)
    ensures Lows(d, r, b, c) == Steps(r0, x, i + 1)
  {
    LowG(i, b, c, d);
    StepLow(i, a, b, c, d, Xor64(c, And64(d, Xor64(b, c))), x);
    hide Step, P, Lows, Xor64, And64, Or64, T, KIndex, ShiftOf;
    r := P(a, b, Xor64(c, And64(d, Xor64(b, c))), x[k], s, t);
  }

  /** `P` in round 3. */
  method StepH(a: Long, b: Long, c: Long, d: Long, k: nat, s: nat, t: Word, ghost i: nat, x: seq<Word>, ghost r0: Regs)
    returns (r: Long)
    requires 32 <= i < 48 && |x| == 16 && k == KIndex(i) && s == ShiftOf(i) && t == T(i)
    requires Lows(a, b, c, d) == Steps(r0, x, i)
    ensures Lows(d, r, b, c) == Steps(r0, x, i + 1)
  {
    LowH(i, b, c, d);
    StepLow(i, a, b, c, d, Xor64(Xor64(b, c), d), x);
    hide Step, P, Lows, Xor64, And64, Or64, T, KIndex, ShiftOf;
    r := P(a, b, Xor64(Xor64(b, c), d), x[k], s, t);
  }

  /** `P` in round 4. */
  method StepI(a: Long, b: Long, c: Long, d: Long, k: nat, s: nat, t: Word, ghost i: nat, x: seq<Word>, ghost r0: Regs)
    returns (r: Long)
    requires 48 <= i < 64 && |x| == 16 && k == KIndex(i) && s == ShiftOf(i) && t == T(i)
    requires Lows(a, b, c, d) == Steps(r0, x, i)
    ensures Lows(d, r, b, c) == Steps(r0, x, i + 1)
  {
    LowI(i, b, c, d);
    StepLow(i, a, b, c, d, Xor64(c, Or64(b, Not64(d))), x);
    hide Step, P, Lows, Xor64, And64, Or64, T, KIndex, ShiftOf;
    r := P(a, b, Xor64(c, Or64(b, Not64(d))), x[k], s, t);
  }

  method Round1(a0: Long, b0: Long, c0: Long, d0: Long, x: seq<Word>, ghost r0: Regs)
    returns (a: Long, b: Long, c: Long, d: Long)
    requires |x| == 16 && Lows(a0, b0, c0, d0) == Steps(r0, x, 0)
    ensures Lows(a, b, c, d) == Steps(r0, x, 16)
  {
    hide Lows, Steps;
    a, b, c, d := a0, b0, c0, d0;
    a := StepF(a, b, c, d, 0, 7, 0xD76AA478, 0, x, r0);
    d := StepF(d, a, b, c, 1, 12, 0xE8C7B756, 1, x, r0);
    c := StepF(c, d, a, b, 2, 17, 0x242070DB, 2, x, r0);
    b := StepF(b, c, d, a, 3, 22, 0xC1BDCEEE, 3, x, r0);
    a := StepF(a, b, c, d, 4, 7, 0xF57C0FAF, 4, x, r0);
    d := StepF(d, a, b, c, 5, 12, 0x4787C62A, 5, x, r0);
    c := StepF(c, d, a, b, 6, 17, 0xA8304613, 6, x, r0);
    b := StepF(b, c, d, a, 7, 22, 0xFD469501, 7, x, r0);
    a := StepF(a, b, c, d, 8, 7, 0x698098D8, 8, x, r0);
    d := StepF(d, a, b, c, 9, 12, 0x8B44F7AF, 9, x, r0);
    c := StepF(c, d, a, b, 10, 17, 0xFFFF5BB1, 10, x, r0);
    b := StepF(b, c, d, a, 11, 22, 0x895CD7BE, 11, x, r0);
    a := StepF(a, b, c, d, 12, 7, 0x6B901122, 12, x, r0);
    d := StepF(d, a, b, c, 13, 12, 0xFD987193, 13, x, r0);
    c := StepF(c, d, a, b, 14, 17, 0xA679438E, 14, x, r0);
    b := StepF(b, c, d, a, 15, 22, 0x49B40821, 15, x, r0);
  }

  method Round2(a0: Long, b0: Long, c0: Long, d0: Long, x: seq<Word>, ghost r0: Regs)
    returns (a: Long, b: Long, c: Long, d: Long)
    requires |x| == 16 && Lows(a0, b0, c0, d0) == Steps(r0, x, 16)
    ensures Lows(a, b, c, d) == Steps(r0, x, 32)
  {
    hide Lows, Steps;
    a, b, c, d := a0, b0, c0, d0;
    a := StepG(a, b, c, d, 1, 5, 0xF61E2562, 16, x, r0);
    d := StepG(d, a, b, c, 6, 9, 0xC040B340, 17, x, r0);
    c := StepG(c, d, a, b, 11, 14, 0x265E5A51, 18, x, r0);
    b := StepG(b, c, d, a, 0, 20, 0xE9B6C7AA, 19, x, r0);
    a := StepG(a, b, c, d, 5, 5, 0xD62F105D, 20, x, r0);
    d := StepG(d, a, b, c, 10, 9, 0x02441453, 21, x, r0);
    c := StepG(c, d, a, b, 15, 14, 0xD8A1E681, 22, x, r0);
    b := StepG(b, c, d, a, 4, 20, 0xE7D3FBC8, 23, x, r0);
    a := StepG(a, b, c, d, 9, 5, 0x21E1CDE6, 24, x, r0);
    d := StepG(d, a, b, c, 14, 9, 0xC33707D6, 25, x, r0);
    c := StepG(c, d, a, b, 3, 14, 0xF4D50D87, 26, x, r0);
    b := StepG(b, c, d, a, 8, 20, 0x455A14ED, 27, x, r0);
    a := StepG(a, b, c, d, 13, 5, 0xA9E3E905, 28, x, r0);
    d := StepG(d, a, b, c, 2, 9, 0xFCEFA3F8, 29, x, r0);
    c := StepG(c, d, a, b, 7, 14, 0x676F02D9, 30, x, r0);
    b := StepG(b, c, d, a, 12, 20, 0x8D2A4C8A, 31, x, r0);
  }

  method Round3(a0: Long, b0: Long, c0: Long, d0: Long, x: seq<Word>, ghost r0: Regs)
    returns (a: Long, b: Long, c: Long, d: Long)
    requires |x| == 16 && Lows(a0, b0, c0, d0) == Steps(r0, x, 32)
    ensures Lows(a, b, c, d) == Steps(r0, x, 48)
  {
    hide Lows, Steps;
    a, b, c, d := a0, b0, c0, d0;
    a := StepH(a, b, c, d, 5, 4, 0xFFFA3942, 32, x, r0);
    d := StepH(d, a, b, c, 8, 11, 0x8771F681, 33, x, r0);
    c := StepH(c, d, a, b, 11, 16, 0x6D9D6122, 34, x, r0);
    b := StepH(b, c, d, a, 14, 23, 0xFDE5380C, 35, x, r0);
    a := StepH(a, b, c, d, 1, 4, 0xA4BEEA44, 36, x, r0);
    d := StepH(d, a, b, c, 4, 11, 0x4BDECFA9, 37, x, r0);
    c := StepH(c, d, a, b, 7, 16, 0xF6BB4B60, 38, x, r0);
    b := StepH(b, c, d, a, 10, 23, 0xBEBFBC70, 39, x, r0);
    a := StepH(a, b, c, d, 13, 4, 0x289B7EC6, 40, x, r0);
    d := StepH(d, a, b, c, 0, 11, 0xEAA127FA, 41, x, r0);
    c := StepH(c, d, a, b, 3, 16, 0xD4EF3085, 42, x, r0);
    b := StepH(b, c, d, a, 6, 23, 0x04881D05, 43, x, r0);
    a := StepH(a, b, c, d, 9, 4, 0xD9D4D039, 44, x, r0);
    d := StepH(d, a, b, c, 12, 11, 0xE6DB99E5, 45, x, r0);
    c := StepH(c, d, a, b, 15, 16, 0x1FA27CF8, 46, x, r0);
    b := StepH(b, c, d, a, 2, 23, 0xC4AC5665, 47, x, r0);
  }

  method Round4(a0: Long, b0: Long, c0: Long, d0: Long, x: seq<Word>, ghost r0: Regs)
    returns (a: Long, b: Long, c: Long, d: Long)
    requires |x| == 16 && Lows(a0, b0, c0, d0) == Steps(r0, x, 48)
    ensures Lows(a, b, c, d) == Steps(r0, x, 64)
  {
    hide Lows, Steps;
    a, b, c, d := a0, b0, c0, d0;
    a := StepI(a, b, c, d, 0, 6, 0xF4292244, 48, x, r0);
    d := StepI(d, a, b, c, 7, 10, 0x432AFF97, 49, x, r0);
    c := StepI(c, d, a, b, 14, 15, 0xAB9423A7, 50, x, r0);
    b := StepI(b, c, d, a, 5, 21, 0xFC93A039, 51, x, r0);
    a := StepI(a, b, c, d, 12, 6, 0x655B59C3, 52, x, r0);
    d := StepI(d, a, b, c, 3, 10, 0x8F0CCC92, 53, x, r0);
    c := StepI(c, d, a, b, 10, 15, 0xFFEFF47D, 54, x, r0);
    b := StepI(b, c, d, a, 1, 21, 0x85845DD1, 55, x, r0);
    a := StepI(a, b, c, d, 8, 6, 0x6FA87E4F, 56, x, r0);
    d := StepI(d, a, b, c, 15, 10, 0xFE2CE6E0, 57, x, r0);
    c := StepI(c, d, a, b, 6, 15, 0xA3014314, 58, x, r0);
    b := StepI(b, c, d, a, 13, 21, 0x4E0811A1, 59, x, r0);
    a := StepI(a, b, c, d, 4, 6, 0xF7537E82, 60, x, r0);
    d := StepI(d, a, b, c, 11, 10, 0xBD3AF235, 61, x, r0);
    c := StepI(c, d, a, b, 2, 15, 0x2AD7D2BB, 62, x, r0);
    b := StepI(b, c, d, a, 9, 21, 0xEB86D391, 63, x, r0);
  }

  // ---- streaming ----

  lemma HashAppend(m: seq<Byte>, block: seq<Byte>)
    requires |m| % 64 == 0 && |block| == 64
    ensures |m + block| % 64 == 0 && Hash(m + block) == Compress(Hash(m), block)
  {
    BlockBehind(m, block);
  }

  lemma StartWords()
    ensures Lows(0x67452301, 0xEFCDAB89, 0x98BADCFE, 0x10325476) == H0
  {
    LowWord(0x67452301);
    LowWord(0xEFCDAB89);
    LowWord(0x98BADCFE);
    LowWord(0x10325476);
    hide Low;
  }

  lemma SameTail(n: int, m: int, k: int)
    requires n == m + 64 * k
    ensures n % 64 == m % 64
  {}

  lemma Empty()
    ensures Whole([]) == [] && Tail([]) == [] && Hash([]) == H0
  {}

  /** The registers `h` are those after the first `k` bytes, which are whole blocks. */
  ghost predicate HashedTo(h: Regs, m: seq<Byte>, k: nat) {
    k <= |m| && k % 64 == 0 && h == Hash(m[..k])
  }

  /** The next block of a message. */
  lemma HashNext(h: Regs, m: seq<Byte>, k: nat)
    requires HashedTo(h, m, k) && k + 64 <= |m|
    ensures HashedTo(Compress(h, m[k..k + 64]), m, k + 64)
  {
    hide Hash, Compress;
    SameTail(k + 64, k, 1);
    assert m[..k + 64] == m[..k] + m[k..k + 64];
    HashAppend(m[..k], m[k..k + 64]);
  }

  /** How many carries into the second counter an update of this length loses: it adds at most one. */
  function Lost(total0: nat, length: nat): nat {
    var carry := (total0 + length) / 0x1_0000_0000;
    if carry > 1 then carry - 1 else 0
  }

  /** An update loses none exactly when the sum is below 2^33. */
  lemma LostNone(total0: nat, length: nat)
    ensures Lost(total0, length) == 0 <==> total0 + length < 0x2_0000_0000
  {}

  function Known(total0: nat, total1: nat): nat { total1 * 0x1_0000_0000 + total0 }

  /** The counters after `n` bytes, when so many carries were lost and the second counter, which has 64 bits,
      ran over so many times. */
  predicate Counts(n: nat, total0: nat, total1: nat, lost: nat, over: nat) {
    && total0 < 0x1_0000_0000 && total1 < TWO64
    && Known(total0, total1 + over * TWO64) + lost * 0x1_0000_0000 == n
  }

  lemma CountsUp(n: nat, total0: nat, total1: nat, lost: nat, over: nat, length: nat)
    requires Counts(n, total0, total1, lost, over)
    ensures var sum := (total0 + length) % 0x1_0000_0000;
            Counts(n + length, sum, if sum < length then (total1 + 1) % TWO64 else total1,
                   lost + Lost(total0, length), if sum < length && total1 == TWO64 - 1 then over + 1 else over)
  {
    var carry := (total0 + length) / 0x1_0000_0000;
    assert carry * 0x1_0000_0000 + (total0 + length) % 0x1_0000_0000 == total0 + length;
  }

  lemma PowerOf256()
    ensures Pow256(4) == 0x1_0000_0000 && Pow256(8) == TWO64
  {
    assert Pow256(2) == 256 * Pow256(1);
    assert Pow256(4) == 256 * Pow256(3);
    assert Pow256(6) == 256 * Pow256(5);
    assert Pow256(8) == 256 * Pow256(7);
  }

  lemma LowEight(high: nat, low: nat, x: nat)
    requires low < TWO64 && x == high * TWO64 + low
    ensures EightBytes(x) == EightBytes(low)
  {
    PowerOf256();
    hide Digit, Pow256;
    forall k | 0 <= k < 8 ensures EightBytes(x)[k] == EightBytes(low)[k] {
      DigitsJoin(high, low, x, 8, k);
    }
  }

  /** Numbers with the same low digits are the same below their power of 256. */
  lemma {:induction false} DigitsDecide(a: nat, b: nat, k: nat)
    requires a < Pow256(k) && b < Pow256(k) && forall i :: 0 <= i < k ==> Digit(a, i) == Digit(b, i)
    ensures a == b
    decreases k
  {
    if k == 0 {
      assert Pow256(0) == 1;
    } else {
      assert Pow256(0) == 1 && Digit(a, 0) == a % 256 && Digit(b, 0) == b % 256;
      forall i | 0 <= i < k - 1 ensures Digit(a / 256, i) == Digit(b / 256, i) {
        DigitStep(a, i + 1);
        DigitStep(b, i + 1);
        assert Digit(a, i + 1) == Digit(b, i + 1);
      }
      DigitsDecide(a / 256, b / 256, k - 1);
    }
  }

  /** The length field has 64 bits. */
  lemma EightDecide(x: nat, y: nat)
    ensures EightBytes(x) == EightBytes(y) <==> x % TWO64 == y % TWO64
  {
    var low, low' := x % TWO64, y % TWO64;
    LowEight(x / TWO64, low, x);
    LowEight(y / TWO64, low', y);
    PowerOf256();
    if EightBytes(x) == EightBytes(y) {
      forall i | 0 <= i < 8 ensures Digit(low, i) == Digit(low', i) {
        assert EightBytes(low)[i] == EightBytes(low')[i];
      }
      hide Digit, Pow256;
      DigitsDecide(low, low', 8);
    }
  }

  lemma PaddedDecide(m: seq<Byte>, bytes: nat, n: nat)
    ensures PaddedAs(m, bytes) == PaddedAs(m, n) <==> EightBytes(8 * bytes) == EightBytes(8 * n)
  {
    hide EightBytes;
    var head := m + [0x80] + Zeros((119 - |m| % 64) % 64);
    assert PaddedAs(m, bytes)[|head|..] == EightBytes(8 * bytes) && PaddedAs(m, n)[|head|..] == EightBytes(8 * n);
  }

  lemma TakeAway(x: nat, q: nat, r: nat)
    requires x == q * TWO64 + r
    ensures x % TWO64 == r % TWO64
  {}

  /** Lengths in bytes that differ by lost carries and by overruns of the second counter. */
  lemma LostBits(n: nat, bytes: nat, lost: nat, over: nat)
    requires n == bytes + lost * TWO32 + over * (TWO64 * TWO32)
    ensures 8 * n % TWO64 == 8 * bytes % TWO64 <==> lost % 0x2000_0000 == 0
  {
    var q, s := lost / 0x2000_0000, lost % 0x2000_0000;
    var a, r := 8 * bytes / TWO64, 8 * bytes % TWO64;
    var t := s * (8 * TWO32);
    assert 0 <= t < TWO64;
    assert 8 * n == (a + q + 8 * over * TWO32) * TWO64 + (r + t);
    TakeAway(8 * n, a + q + 8 * over * TWO32, r + t);
  }

  /** The finished message is padded as the standard says if and only if the number of carries lost is a
      multiple of 2^29: the length in bits has 64. */
  lemma PaddingRight(m: seq<Byte>, total0: nat, total1: nat, lost: nat, over: nat)
    requires Counts(|m|, total0, total1, lost, over)
    ensures PaddedAs(m, Known(total0, total1)) == PaddedAs(m, |m|) <==> lost % 0x2000_0000 == 0
  {
    var bytes := Known(total0, total1);
    assert |m| == bytes + lost * TWO32 + over * (TWO64 * TWO32);
    hide *;
    PaddedDecide(m, bytes, |m|);
    EightDecide(8 * bytes, 8 * |m|);
    LostBits(|m|, bytes, lost, over);
  }

  /** With no carry lost the counters give the digest of the whole message. */
  lemma KnownIs(m: seq<Byte>, total0: nat, total1: nat, over: nat)
    requires Counts(|m|, total0, total1, 0, over)
    ensures DigestAs(m, Known(total0, total1)) == Digest(m)
  {
    hide PaddedAs, Counts, Known;
    PaddingRight(m, total0, total1, 0, over);
  }

  /** An update of 2^33 bytes on a new context loses a carry, and its message is padded wrong. */
  lemma LosesOne(m: seq<Byte>)
    requires |m| == 0x2_0000_0000
    ensures Lost(0, |m|) == 1 && Counts(|m|, 0, 1, 1, 0)
    ensures PaddedAs(m, Known(0, 1)) != PaddedAs(m, |m|)
  {
    hide PaddedAs;
    PaddingRight(m, 0, 1, 1, 0);
  }

  lemma CountsTail(n: nat, total0: nat, total1: nat, lost: nat, over: nat)
    requires Counts(n, total0, total1, lost, over)
    ensures total0 % 64 == n % 64
  {
    SameTail(n, total0, 0x400_0000 * (total1 + over * TWO64 + lost));
  }

  lemma LowDigits(high: nat, low: nat, x: nat)
    requires low < 0x1_0000_0000 && x == high * 0x1_0000_0000 + low
    ensures WordBytes(x) == WordBytes(low)
  {
    PowerOf256();
    hide Digit, Pow256;
    DigitsJoin(high, low, x, 4, 0);
    DigitsJoin(high, low, x, 4, 1);
    DigitsJoin(high, low, x, 4, 2);
    DigitsJoin(high, low, x, 4, 3);
  }

  /** `PUT_UINT32` writes the four bytes of a long's low word. */
  lemma LowBytesOf(x: Long)
    ensures WordBytes(x) == WordBytes(Low(x))
  {
    PowerOf256();
    LowDigits(x / 0x1_0000_0000, Low(x), x);
  }

  /** How many bytes of padding `md5_finish` takes. */
  function PadCount(total0: nat): (padn: nat)
    ensures 0 < padn <= 64
  {
    var last := total0 % 64;
    if last < 56 then 56 - last else 120 - last
  }

  /** The 8 bytes of the length in bits, from shifts of the two counters that have no bit in common. */
  function LengthField(total0: nat, total1: nat): (s: seq<Byte>)
    ensures |s| == 8
  {
    var high := total0 / 0x2000_0000 + 8 * total1;
    var low := 8 * total0;
    WordBytes(low) + WordBytes(high)
  }

  lemma HighDigits(high: nat, low: nat, x: nat)
    requires low < 0x1_0000_0000 && x == high * 0x1_0000_0000 + low
    ensures EightBytes(x) == WordBytes(low) + WordBytes(high)
  {
    PowerOf256();
    hide Digit, Pow256;
    var s, t := EightBytes(x), WordBytes(low) + WordBytes(high);
    forall k | 0 <= k < 8 ensures s[k] == t[k] {
      DigitsJoin(high, low, x, 4, k);
    }
  }

  /** The two counters, shifted as `md5_finish` shifts them, give the length in bits. */
  lemma LengthBytes(total0: nat, total1: nat)
    requires total0 < 0x1_0000_0000
    ensures WordBytes(8 * total0) + WordBytes(total0 / 0x2000_0000 + 8 * total1)
            == EightBytes(8 * Known(total0, total1))
  {
    var carry, low := total0 / 0x2000_0000, 8 * (total0 % 0x2000_0000);
    assert 8 * total0 == carry * 0x1_0000_0000 + low;
    LowDigits(carry, low, 8 * total0);
    HighDigits(carry + 8 * total1, low, 8 * (total1 * 0x1_0000_0000 + total0));
  }

  lemma PaddedParts(m: seq<Byte>, padn: nat, bytes: nat)
    requires padn == if |m| % 64 < 56 then 56 - |m| % 64 else 120 - |m| % 64
    ensures 0 < padn <= 64 && (|m| + padn + 8) % 64 == 0
    ensures PaddedAs(m, bytes) == m + ([0x80] + Zeros(63))[..padn] + EightBytes(8 * bytes)
  {
    var n := |m| % 64;
    assert (119 - n) % 64 == padn - 1;
    assert ([0x80] + Zeros(63))[..padn] == [0x80] + Zeros(padn - 1);
    assert m + [0x80] + Zeros(padn - 1) == m + ([0x80] + Zeros(padn - 1));
  }

  /** What `md5_finish` appends. */
  lemma FinishParts(m: seq<Byte>, total0: nat, total1: nat, lost: nat, over: nat)
    requires Counts(|m|, total0, total1, lost, over)
    ensures (|m| + PadCount(total0) + 8) % 64 == 0
    ensures PaddedAs(m, Known(total0, total1))
            == m + ([0x80] + Zeros(63))[..PadCount(total0)] + LengthField(total0, total1)
  {
    CountsTail(|m|, total0, total1, lost, over);
    LengthBytes(total0, total1);
    PaddedParts(m, PadCount(total0), Known(total0, total1));
    hide PaddedAs, WordBytes, EightBytes, Zeros, Counts;
  }

  lemma WholeBlocks(m: seq<Byte>)
    requires |m| % 64 == 0
    ensures Whole(m) == m
  {}

  /** Where an update stops. */
  lemma Ends(h: Regs, m: seq<Byte>, input: seq<Byte>, pos: nat, left: nat)
    requires pos <= |input|
    requires left == 0 ==> HashedTo(h, m + input, |m| + pos) && |input| - pos < 64
    requires left != 0 ==> pos == 0 && left == |Tail(m)| && left + |input| < 64
    ensures left == 0 ==> h == Hash(Whole(m + input)) && Tail(m + input) == input[pos..]
    ensures left != 0 ==> Whole(m + input) == Whole(m) && Tail(m + input) == Tail(m) + input
  {
    var all := m + input;
    hide Hash;
    if left == 0 {
      var k := (|m| + pos) / 64;
      assert |all| == 64 * k + (|input| - pos);
      assert |all| % 64 == |input| - pos;
    } else {
      assert |all| == 64 * (|m| / 64) + (left + |input|);
      assert |all| % 64 == left + |input|;
    }
  }

  method AllRounds(a0: Long, b0: Long, c0: Long, d0: Long, x: seq<Word>, ghost r0: Regs)
    returns (a: Long, b: Long, c: Long, d: Long)
    requires |x| == 16 && Lows(a0, b0, c0, d0) == r0
    ensures Lows(a, b, c, d) == Steps(r0, x, 4 * |x|)
  {
    assert Steps(r0, x, 0) == r0;
    hide Lows, Steps;
    a, b, c, d := Round1(a0, b0, c0, d0, x, r0);
    a, b, c, d := Round2(a, b, c, d, x, r0);
    a, b, c, d := Round3(a, b, c, d, x, r0);
    a, b, c, d := Round4(a, b, c, d, x, r0);
  }

  class Context {
    var total0: nat
    var total1: nat
    const state: array<Long>
    const buffer: array<Byte>

    /** All input so far, the carries lost, and how often the second counter ran over. */
    ghost var message: seq<Byte>
    ghost var lost: nat
    ghost var over: nat

    ghost predicate Shape() {
      state.Length == 4 && buffer.Length == 64
    }

    ghost function Regs(): Md5Spec.Regs
      requires Shape()
      reads state
    {
      Lows(state[0], state[1], state[2], state[3])
    }

    ghost predicate Valid() reads this, state, buffer {
      && Shape() && Regs() == Hash(Whole(message)) && buffer[..|Tail(message)|] == Tail(message)
      && Counts(|message|, total0, total1, lost, over)
    }

    /** The length of the message as the counters have it. */
    ghost function KnownLength(): nat reads this {
      Known(total0, total1)
    }

    /** A context on which `md5_start` has been called. */
    constructor ()
      ensures Valid() && fresh(state) && fresh(buffer) && message == [] && lost == 0
    {
      state := new Long[4];
      buffer := new Byte[64];
      new;
      Start();
    }

    /** `md5_start`. */
    method Start()
      requires Shape()
      modifies this, state
      ensures Valid() && message == [] && lost == 0
    {
      Empty();
      StartWords();
      hide Low, Lows, Hash, Whole, Tail;
      total0 := 0;
      total1 := 0;
      state[0] := 0x67452301;
      state[1] := 0xEFCDAB89;
      state[2] := 0x98BADCFE;
      state[3] := 0x10325476;
      message := [];
      lost, over := 0, 0;
    }

    /** `md5_process`. */
    method Process(data: seq<Byte>)
      requires Shape() && |data| == 64
      modifies state
      ensures Regs() == Compress(old(Regs()), data)
    {
      ghost var r0 := Regs();
      var x := seq(16, i requires 0 <= i < 16 =>
        LittleEndian(data[4 * i], data[4 * i + 1], data[4 * i + 2], data[4 * i + 3]));
      assert x == Decode(data);
      var a, b, c, d := state[0], state[1], state[2], state[3];
      hide Decode, LittleEndian;
      a, b, c, d := AllRounds(a, b, c, d, x, r0);
      AddState(a, b, c, d);
    }

    method AddState(a: Long, b: Long, c: Long, d: Long)
      requires Shape()
      modifies state
      ensures Regs() == Sum(old(Regs()), Lows(a, b, c, d))
    {
      LowAdd(state[0], a);
      LowAdd(state[1], b);
      LowAdd(state[2], c);
      LowAdd(state[3], d);
      hide Low, Add64, Add;
      state[0] := Add64(state[0], a);
      state[1] := Add64(state[1], b);
      state[2] := Add64(state[2], c);
      state[3] := Add64(state[3], d);
    }

    /** `memcpy` into the buffer. */
    method CopyInto(pos: nat, part: seq<Byte>)
      requires Shape() && pos + |part| <= 64
      modifies buffer
      ensures buffer[..pos + |part|] == old(buffer[..pos]) + part
    {
      var i := 0;
      while i < |part|
        invariant 0 <= i <= |part| && buffer[..pos + i] == old(buffer[..pos]) + part[..i]
      {
        buffer[pos + i] := part[i];
        i := i + 1;
      }
    }

    /** The loop of `md5_update` over whole blocks of the input. */
    method ProcessBlocks(input: seq<Byte>, pos0: nat, left: nat, ghost m: seq<Byte>, ghost all: seq<Byte>)
      returns (pos: nat)
      requires Shape() && all == m + input && pos0 <= |input|
      requires left == 0 ==> HashedTo(Regs(), all, |m| + pos0)
      requires left != 0 ==> pos0 == 0 && |input| < 64
      modifies state
      ensures pos <= |input| < pos + 64
      ensures left == 0 ==> HashedTo(Regs(), all, |m| + pos)
      ensures left != 0 ==> pos == 0 && Regs() == old(Regs())
    {
      hide Hash, Compress, HashedTo;
      pos := pos0;
      while |input| - pos >= 64
        invariant pos0 <= pos <= |input|
        invariant left == 0 ==> HashedTo(Regs(), all, |m| + pos)
        invariant left != 0 ==> pos == 0 && Regs() == old(Regs())
      {
        assert all[|m| + pos..|m| + pos + 64] == input[pos..pos + 64];
        HashNext(Regs(), all, |m| + pos);
        Process(input[pos..pos + 64]);
        pos := pos + 64;
      }
    }

    /** Count the length of an update. */
    method CountLength(length: nat, ghost n: nat)
      requires Counts(n, total0, total1, lost, over)
      modifies this`total0, this`total1, this`lost, this`over
      ensures Counts(n + length, total0, total1, lost, over) && lost == old(lost) + Lost(old(total0), length)
    {
      CountsUp(n, total0, total1, lost, over, length);
      hide Counts, Lost;
      lost := lost + Lost(total0, length);
      total0 := (total0 + length) % 0x1_0000_0000;
      if total0 < length {
        if total1 == TWO64 - 1 { over := over + 1; }
        total1 := (total1 + 1) % TWO64;
      }
    }

    /** Complete a block that is begun, if the input is long enough. */
    method CompleteBlock(input: seq<Byte>, left0: nat, ghost m: seq<Byte>) returns (pos: nat, left: nat)
      requires Shape() && left0 == |Tail(m)| && Regs() == Hash(Whole(m)) && buffer[..left0] == Tail(m)
      modifies state, buffer
      ensures pos <= |input|
      ensures left == 0 ==> HashedTo(Regs(), m + input, |m| + pos)
      ensures left != 0 ==> pos == 0 && left == left0 && left + |input| < 64
      ensures left != 0 ==> Regs() == Hash(Whole(m)) && buffer[..left0] == Tail(m)
    {
      hide Hash, Compress;
      pos, left := 0, left0;
      var fill := 64 - left;
      ghost var k, all := |m| - left0, m + input;
      assert all[..k] == Whole(m);
      assert HashedTo(Regs(), all, k);
      hide HashedTo;
      if left != 0 && |input| >= fill {
        assert all[k..k + 64] == Tail(m) + input[..fill];
        CopyInto(left, input[..fill]);
        assert buffer[..] == buffer[..64];
        HashNext(Regs(), all, k);
        Process(buffer[..]);
        pos := fill;
        left := 0;
      }
    }

    /** The part of `md5_update` that works on the input. */
    method Absorb(input: seq<Byte>, left0: nat, ghost m: seq<Byte>)
      requires Shape() && left0 == |Tail(m)| && Regs() == Hash(Whole(m)) && buffer[..left0] == Tail(m)
      modifies state, buffer
      ensures Regs() == Hash(Whole(m + input)) && buffer[..|Tail(m + input)|] == Tail(m + input)
    {
      hide Hash, Compress, Whole, Tail;
      var pos, left := CompleteBlock(input, left0, m);
      pos := ProcessBlocks(input, pos, left, m, m + input);
      ghost var h := Regs();
      Ends(h, m, input, pos, left);
      if pos < |input| {
        CopyInto(left, input[pos..]);
      }
      assert h == Regs();
    }

    /** `md5_update`. */
    method Update(input: seq<Byte>)
      requires Valid() && |input| < 0x1_0000_0000_0000_0000
      modifies this, state, buffer
      ensures Valid() && message == old(message) + input
      ensures lost == old(lost) + Lost(old(total0), |input|)
    {
      if |input| == 0 {
        assert message + input == message;
        return;
      }
      hide Hash, Lost, Whole, Tail, Counts;
      CountsTail(|message|, total0, total1, lost, over);
      var left := total0 % 64;
      CountLength(|input|, |message|);
      Absorb(input, left, message);
      message := message + input;
    }

    /** The two updates of `md5_finish`. */
    method Pad(padn: nat, length: seq<Byte>)
      requires Valid() && 0 < padn <= 64 && |length| == 8 && (|message| + padn + 8) % 64 == 0
      modifies this, state, buffer
      ensures Shape() && (|old(message)| + padn + 8) % 64 == 0
      ensures Regs() == Hash(old(message) + ([0x80] + Zeros(63))[..padn] + length)
    {
      hide Hash, Lost, Whole, Tail;
      var padding := [0x80] + Zeros(63);
      Update(padding[..padn]);
      Update(length);
      WholeBlocks(message);
    }

    /** `md5_finish`: the digest of the message, if the counters hold its length. */
    method Finish() returns (digest: seq<Byte>)
      requires Valid()
      modifies this, state, buffer
      ensures digest == DigestAs(old(message), old(KnownLength()))
    {
      FinishParts(message, total0, total1, lost, over);
      hide *;
      Pad(PadCount(total0), LengthField(total0, total1));
      digest := StateBytes();
    }

    /** The state, cut to words, lowest byte first. */
    method StateBytes() returns (digest: seq<Byte>)
      requires Shape()
      ensures digest == DigestBytes(Regs())
    {
      LowBytesOf(state[0]);
      LowBytesOf(state[1]);
      LowBytesOf(state[2]);
      LowBytesOf(state[3]);
      hide WordBytes, Low;
      digest := WordBytes(state[0]) + WordBytes(state[1]) + WordBytes(state[2]) + WordBytes(state[3]);
    }
  }

  /** However a message is split into updates, the digest is that of the whole, as long as no part is so
      long that the first counter runs over twice. */
  method DigestOfParts(parts: seq<seq<Byte>>) returns (digest: seq<Byte>)
    requires forall i :: 0 <= i < |parts| ==> |parts[i]| <= 0x1_0000_0000
    ensures digest == Digest(Concat(parts))
  {
    var context := new Context();
    var i := 0;
    hide Hash, Whole, Tail, PaddedAs, DigestBytes, Lost;
    while i < |parts|
      invariant 0 <= i <= |parts| && context.Valid() && fresh(context.state) && fresh(context.buffer)
      invariant context.message == Concat(parts[..i]) && context.lost == 0
    {
      assert parts[..i + 1][..i] == parts[..i];
      LostNone(context.total0, |parts[i]|);
      context.Update(parts[i]);
      i := i + 1;
    }
    assert parts[..|parts|] == parts;
    KnownIs(context.message, context.total0, context.total1, context.over);
    digest := context.Finish();
  }

  lemma ConcatOne(input: seq<Byte>)
    ensures Concat([input]) == input
  {
    assert Concat([]) == [] && Concat([input]) == Concat([input][..0]) + input;
  }

  /** `md5_checksum`, for sizes an `int` can hold. */
  method Checksum(input: seq<Byte>) returns (digest: seq<Byte>)
    requires |input| < 0x8000_0000
    ensures digest == Digest(input)
  {
    hide *;
    ConcatOne(input);
    digest := DigestOfParts([input]);
  }
}
