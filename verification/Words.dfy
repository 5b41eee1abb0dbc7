/** Machine words as numbers, and the bytes they are made of. */
module Words {
  import opened Bitwise
  import opened Masks

  type Byte = n: int | 0 <= n < 0x100
  type Word = n: int | 0 <= n < 0x1_0000_0000

  lemma PowerOf4()
    ensures Pow2(4) == 16
  {
    assert Pow2(2) == 4;
  }

  lemma PowerOf32()
    ensures Pow2(32) == 0x1_0000_0000 && Pow2(64) == 0x1_0000_0000_0000_0000
  {
    hide Pow2;
    PowerOf4();
    PowSplit(4, 4);
    PowSplit(8, 8);
    PowSplit(16, 16);
    PowSplit(32, 32);
  }

  function And(a: Word, b: Word): Word {
    BitsRange(AND, 32, a, b);
    PowerOf32();
    Bits(AND, 32, a, b)
  }

  function Or(a: Word, b: Word): Word {
    BitsRange(OR, 32, a, b);
    PowerOf32();
    Bits(OR, 32, a, b)
  }

  function Xor(a: Word, b: Word): Word {
    BitsRange(XOR, 32, a, b);
    PowerOf32();
    Bits(XOR, 32, a, b)
  }

  function Not(a: Word): Word { 0xFFFF_FFFF - a }

  function Shl(a: Word, n: nat): Word
    decreases n
  {
    if n == 0 then a else Shl((2 * a) % 0x1_0000_0000, n - 1)
  }

  lemma {:induction false} ShrBelow(a: nat, n: nat)
    ensures Masks.Shr(a, n) <= a
  {
    if n == 0 {
    } else {
      ShrBelow(a / 2, n - 1);
    }
  }

  function Shr(a: Word, n: nat): Word {
    ShrBelow(a, n);
    Masks.Shr(a, n)
  }

  /** The circular left shift. */
  function Rotl(w: Word, n: nat): Word
    requires 0 < n < 32
  {
    Or(Shl(w, n), Shr(w, 32 - n))
  }

  /** Addition wraps. */
  function Add(a: Word, b: Word): Word { (a + b) % 0x1_0000_0000 }

  function Pow256(n: nat): (p: nat)
    ensures p > 0
  {
    if n == 0 then 1 else 256 * Pow256(n - 1)
  }

  /** Digit `k` of a number in base 256, counted from the lowest: the number shifted right by `8 * k` bits
      and cut to a byte. */
  function Digit(x: nat, k: nat): Byte {
    (x / Pow256(k)) % 256
  }

  lemma ScaleUp(a: int, b: int, c: int)
    requires 0 <= a && b <= c
    ensures a * b <= a * c
  {}

  lemma DivDivParts(x: nat, a: nat, b: nat, q: nat, r: nat, q2: nat, r2: nat)
    requires x == a * q + r && q == b * q2 + r2 && r < a && r2 < b
    ensures x == (a * b) * q2 + (a * r2 + r) && 0 <= a * r2 + r < a * b
  {
    MulSplit(a, b * q2, r2);
    MulAssociate(a, b, q2);
    ScaleUp(a, 0, r2);
    ScaleUp(a, r2, b - 1);
    MulSplit(a, b, -1);
  }

  lemma DivDiv(x: nat, a: nat, b: nat)
    requires a > 0 && b > 0
    ensures a * b > 0 && x / (a * b) == (x / a) / b
  {
    var q, r := x / a, x % a;
    var q2, r2 := q / b, q % b;
    DivDivParts(x, a, b, q, r, q2, r2);
    DivModUnique(x, a * b, q2, a * r2 + r);
  }

  lemma DigitStep(x: nat, k: nat)
    requires k > 0
    ensures Digit(x, k) == Digit(x / 256, k - 1)
  {
    DivDiv(x, 256, Pow256(k - 1));
  }

  /** Two numbers written one after the other: the digits of the low one, then those of the high one. */
  lemma {:induction false} DigitsJoin(high: nat, low: nat, x: nat, j: nat, k: nat)
    requires low < Pow256(j) && x == high * Pow256(j) + low
    ensures Digit(x, k) == if k < j then Digit(low, k) else Digit(high, k - j)
    decreases j
  {
    if j > 0 {
      var p := high * Pow256(j - 1);
      assert high * Pow256(j) == 256 * p;
      assert x == 256 * p + low;
      assert x / 256 == p + low / 256 && x % 256 == low % 256;
      if k == 0 {
        assert Pow256(0) == 1;
      } else {
        DigitStep(x, k);
        if k < j { DigitStep(low, k); }
        DigitsJoin(high, low / 256, x / 256, j - 1, k - 1);
      }
    } else {
      assert x == high;
    }
  }
}

/** Messages in blocks of 64 bytes. */
module Blocks {
  import opened Words

  function Zeros(n: nat): (z: seq<Byte>)
    ensures |z| == n
  {
    seq(n, _ => 0)
  }

  /** The whole blocks of a message, and the bytes after them. */
  function Whole(m: seq<Byte>): (w: seq<Byte>)
    ensures |w| % 64 == 0 && |w| == |m| - |m| % 64
  {
    m[..|m| - |m| % 64]
  }

  function Tail(m: seq<Byte>): (t: seq<Byte>)
    ensures |t| == |m| % 64 && Whole(m) + t == m
  {
    m[|m| - |m| % 64..]
  }

  /** One block more behind whole blocks. */
  lemma BlockBehind(m: seq<Byte>, block: seq<Byte>)
    requires |m| % 64 == 0 && |block| == 64
    ensures |m + block| % 64 == 0
    ensures (m + block)[..|m + block| - 64] == m && (m + block)[|m + block| - 64..] == block
  {
    assert |m + block| == 64 * (|m| / 64 + 1);
  }

  /** A message given in parts. */
  function Concat(parts: seq<seq<Byte>>): seq<Byte> {
    if parts == [] then [] else Concat(parts[..|parts| - 1]) + parts[|parts| - 1]
  }
}
