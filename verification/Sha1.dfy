/** SHA-1 as sections 3 to 6.1 of RFC 3174 define it on a whole message. */
module Sha1Spec {
  import opened Blocks
  import opened Words

  datatype Regs = Regs(a: Word, b: Word, c: Word, d: Word, e: Word)

  const H0 := Regs(0x67452301, 0xEFCDAB89, 0x98BADCFE, 0x10325476, 0xC3D2E1F0)

  /** Section 5. */
  function F(t: nat, b: Word, c: Word, d: Word): Word {
    if t < 20 then Or(And(b, c), And(Not(b), d))
    else if t < 40 then Xor(Xor(b, c), d)
    else if t < 60 then Or(Or(And(b, c), And(b, d)), And(c, d))
    else Xor(Xor(b, c), d)
  }

  function K(t: nat): Word {
    if t < 20 then 0x5A827999 else if t < 40 then 0x6ED9EBA1 else if t < 60 then 0x8F1BBCDC else 0xCA62C1D6
  }

  /** A word from four bytes, highest first. */
  function BigEndian(b0: Byte, b1: Byte, b2: Byte, b3: Byte): Word {
    Or(Or(Or(Shl(b0, 24), Shl(b1, 16)), Shl(b2, 8)), b3)
  }

  /** The word sequence W(t) of a block. */
  function W(block: seq<Byte>, t: nat): Word
    requires |block| == 64
  {
    if t < 16 then BigEndian(block[4 * t], block[4 * t + 1], block[4 * t + 2], block[4 * t + 3])
    else Rotl(Xor(Xor(Xor(W(block, t - 3), W(block, t - 8)), W(block, t - 14)), W(block, t - 16)), 1)
  }

  function Round(t: nat, r: Regs, w: Word): Regs {
    Regs(Add(Add(Add(Add(Rotl(r.a, 5), F(t, r.b, r.c, r.d)), r.e), w), K(t)), r.a, Rotl(r.b, 30), r.c, r.d)
  }

  function Words80(block: seq<Byte>): (ws: seq<Word>)
    requires |block| == 64
    ensures |ws| == 80
  {
    seq(80, t requires 0 <= t < 80 => W(block, t))
  }

  /** The first `n` steps on the words `ws`. */
  function Rounds(h: Regs, ws: seq<Word>, n: nat): Regs
    requires n <= |ws|
  {
    if n == 0 then h else Round(n - 1, Rounds(h, ws, n - 1), ws[n - 1])
  }

  function Sum(h: Regs, r: Regs): Regs {
    Regs(Add(h.a, r.a), Add(h.b, r.b), Add(h.c, r.c), Add(h.d, r.d), Add(h.e, r.e))
  }

  function Compress(h: Regs, block: seq<Byte>): Regs
    requires |block| == 64
  {
    var ws := Words80(block);
    Sum(h, Rounds(h, ws, |ws|))
  }

  /** The hash after all blocks of `m`. */
  function Hash(m: seq<Byte>): Regs
    requires |m| % 64 == 0
  {
    if m == [] then H0 else Compress(Hash(m[..|m| - 64]), m[|m| - 64..])
  }

  /** A number in 8 bytes, highest first. */
  function EightBytes(x: nat): (s: seq<Byte>)
    ensures |s| == 8
  {
    seq(8, i requires 0 <= i < 8 => Digit(x, 7 - i))
  }

  /** Section 4: a one bit, zeros up to 56 bytes past a block boundary, the length in bits. */
  function Padded(m: seq<Byte>): (p: seq<Byte>)
    ensures |p| % 64 == 0
  {
    m + [0x80] + Zeros((119 - |m| % 64) % 64) + EightBytes(8 * |m|)
  }

  function WordBytes(w: Word): (s: seq<Byte>)
    ensures |s| == 4
  {
    [Digit(w, 3), Digit(w, 2), Digit(w, 1), Digit(w, 0)]
  }

  function DigestBytes(h: Regs): (s: seq<Byte>)
    ensures |s| == 20
  {
    WordBytes(h.a) + WordBytes(h.b) + WordBytes(h.c) + WordBytes(h.d) + WordBytes(h.e)
  }

  /** The message digest. */
  function Digest(m: seq<Byte>): (s: seq<Byte>)
    ensures |s| == 20
  {
    DigestBytes(Hash(Padded(m)))
  }
}

/** The streaming implementation of src/external/sha1.c. */
module Sha1 {
  import opened Blocks
  import opened Words
  import opened Sha1Spec

  datatype Status = Success | TooLong | StateError

  lemma Empty()
    ensures Whole([]) == [] && Tail([]) == [] && Hash([]) == H0
  {}

  lemma HashAppend(m: seq<Byte>, block: seq<Byte>)
    requires |m| % 64 == 0 && |block| == 64
    ensures |m + block| % 64 == 0 && Hash(m + block) == Compress(Hash(m), block)
  {
    BlockBehind(m, block);
  }

  /** One more byte: it extends the tail, or completes a block. */
  lemma OneMore(m: seq<Byte>, b: Byte)
    ensures |Tail(m)| < 63 ==> Whole(m + [b]) == Whole(m) && Tail(m + [b]) == Tail(m) + [b]
    ensures |Tail(m)| == 63 ==> Whole(m + [b]) == Whole(m) + (Tail(m) + [b]) && Tail(m + [b]) == []
    ensures |Tail(m)| == 63 ==> Hash(Whole(m + [b])) == Compress(Hash(Whole(m)), Tail(m) + [b])
  {
    if |Tail(m)| == 63 {
      assert (|m| + 1) % 64 == 0;
      assert Whole(m + [b]) == Whole(m) + (Tail(m) + [b]);
      HashAppend(Whole(m), Tail(m) + [b]);
    } else {
      assert (|m| + 1) % 64 == |m| % 64 + 1;
    }
  }

  function CounterSeq(high: nat, low: nat): (s: seq<Byte>)
    ensures |s| == 8
  {
    [Digit(high, 3), Digit(high, 2), Digit(high, 1), Digit(high, 0),
     Digit(low, 3), Digit(low, 2), Digit(low, 1), Digit(low, 0)]
  }

  /** The two counters hold the digits of the length. */
  lemma CountersAre(high: nat, low: nat)
    requires low < 0x1_0000_0000
    ensures CounterSeq(high, low) == EightBytes(high * 0x1_0000_0000 + low)
  {
    var x := high * 0x1_0000_0000 + low;
    assert Pow256(4) == 0x1_0000_0000 by { assert Pow256(2) == 256 * Pow256(1); assert Pow256(4) == 256 * Pow256(3); }
    hide Digit;
    var s := EightBytes(x);
    forall i | 0 <= i < 8 ensures s[i] == CounterSeq(high, low)[i] {
      DigitsJoin(high, low, x, 4, 7 - i);
    }
  }

  /** The padding fits into the last block. */
  lemma PadOne(m: seq<Byte>)
    requires |Tail(m)| <= 55
    ensures var last := Tail(m) + [0x80] + Zeros(55 - |Tail(m)|) + EightBytes(8 * |m|);
            |last| == 64 && Hash(Padded(m)) == Compress(Hash(Whole(m)), last)
  {
    var last := Tail(m) + [0x80] + Zeros(55 - |Tail(m)|) + EightBytes(8 * |m|);
    assert (119 - |m| % 64) % 64 == 55 - |m| % 64;
    assert Padded(m) == Whole(m) + last;
    HashAppend(Whole(m), last);
  }

  lemma TwoBlocks(p: seq<Byte>, m: seq<Byte>, last: seq<Byte>, more: seq<Byte>)
    requires |m| % 64 == 0 && |last| == 64 && |more| == 64 && p == m + last + more
    ensures |p| % 64 == 0 && Hash(p) == Compress(Compress(Hash(m), last), more)
  {
    hide *;
    HashAppend(m, last);
    HashAppend(m + last, more);
  }

  lemma Regroup(w: seq<Byte>, t: seq<Byte>, o: seq<Byte>, z: seq<Byte>, y: seq<Byte>, e: seq<Byte>)
    ensures (w + t) + o + (z + y) + e == w + (t + o + z) + (y + e)
  {}

  lemma PaddedTwo(m: seq<Byte>)
    requires |Tail(m)| > 55
    ensures Padded(m) == Whole(m) + (Tail(m) + [0x80] + Zeros(63 - |Tail(m)|)) + (Zeros(56) + EightBytes(8 * |m|))
  {
    var n := |m| % 64;
    assert (119 - n) % 64 == 63 - n + 56;
    assert Zeros(63 - n + 56) == Zeros(63 - n) + Zeros(56);
    Regroup(Whole(m), Tail(m), [0x80], Zeros(63 - n), Zeros(56), EightBytes(8 * |m|));
  }

  /** It takes a block of its own. */
  lemma PadTwo(m: seq<Byte>)
    requires |Tail(m)| > 55
    ensures var last := Tail(m) + [0x80] + Zeros(63 - |Tail(m)|);
            var more := Zeros(56) + EightBytes(8 * |m|);
            |last| == 64 && |more| == 64 && Hash(Padded(m)) == Compress(Compress(Hash(Whole(m)), last), more)
  {
    PaddedTwo(m);
    var last := Tail(m) + [0x80] + Zeros(63 - |Tail(m)|);
    var more := Zeros(56) + EightBytes(8 * |m|);
    TwoBlocks(Padded(m), Whole(m), last, more);
  }

  /** The length in bits fits two counters of 32 bits. */
  predicate Counted(n: nat) { n < 0x2000_0000_0000_0000 }

  /** The counters after `n` bytes. */
  predicate Counts(n: nat, high: nat, low: nat, corrupted: Status) {
    && low < 0x1_0000_0000 && high < 0x1_0000_0000
    && (Counted(n) ==> high * 0x1_0000_0000 + low == 8 * n && corrupted == Success)
    && (!Counted(n) ==> n == 0x2000_0000_0000_0000 && corrupted == TooLong)
  }

  /** What is taken in of an input after `n` bytes: all that the counters can count, and one byte more. */
  function Accepted(n: nat, input: seq<Byte>): seq<Byte>
    requires Counted(n)
  {
    if Counted(n + |input|) then input else input[..0x2000_0000_0000_0000 - n]
  }

  lemma StepIs(r: Regs, h: Regs, ws: seq<Word>, t: nat, temp: Word)
    requires t < |ws| && r == Rounds(h, ws, t)
    requires temp == Add(Add(Add(Add(Rotl(r.a, 5), F(t, r.b, r.c, r.d)), r.e), ws[t]), K(t))
    ensures Rounds(h, ws, t + 1) == Regs(temp, r.a, Rotl(r.b, 30), r.c, r.d)
  {
    hide Add, Rotl, F, K;
  }

  /** The four loops of `SHA1ProcessMessageBlock` over the working variables. */
  method Mix(w: array<Word>, h: Regs) returns (r: Regs)
    requires w.Length == 80
    ensures r == Rounds(h, w[..], w.Length)
  {
    var a, b, c, d, e := h.a, h.b, h.c, h.d, h.e;
    hide Rotl, Add, And, Or, Xor, Not;
    var t := 0;
    while t < 20
      invariant 0 <= t <= 20 && Sha1Spec.Regs(a, b, c, d, e) == Rounds(h, w[..], t)
    {
      var temp := Add(Add(Add(Add(Rotl(a, 5), Or(And(b, c), And(Not(b), d))), e), w[t]), 0x5A827999);
      StepIs(Sha1Spec.Regs(a, b, c, d, e), h, w[..], t, temp);
      e, d, c, b, a := d, c, Rotl(b, 30), a, temp;
      t := t + 1;
    }
    while t < 40
      invariant 20 <= t <= 40 && Sha1Spec.Regs(a, b, c, d, e) == Rounds(h, w[..], t)
    {
      var temp := Add(Add(Add(Add(Rotl(a, 5), Xor(Xor(b, c), d)), e), w[t]), 0x6ED9EBA1);
      StepIs(Sha1Spec.Regs(a, b, c, d, e), h, w[..], t, temp);
      e, d, c, b, a := d, c, Rotl(b, 30), a, temp;
      t := t + 1;
    }
    while t < 60
      invariant 40 <= t <= 60 && Sha1Spec.Regs(a, b, c, d, e) == Rounds(h, w[..], t)
    {
      var temp := Add(Add(Add(Add(Rotl(a, 5), Or(Or(And(b, c), And(b, d)), And(c, d))), e), w[t]), 0x8F1BBCDC);
      StepIs(Sha1Spec.Regs(a, b, c, d, e), h, w[..], t, temp);
      e, d, c, b, a := d, c, Rotl(b, 30), a, temp;
      t := t + 1;
    }
    while t < 80
      invariant 60 <= t <= 80 && Sha1Spec.Regs(a, b, c, d, e) == Rounds(h, w[..], t)
    {
      var temp := Add(Add(Add(Add(Rotl(a, 5), Xor(Xor(b, c), d)), e), w[t]), 0xCA62C1D6);
      StepIs(Sha1Spec.Regs(a, b, c, d, e), h, w[..], t, temp);
      e, d, c, b, a := d, c, Rotl(b, 30), a, temp;
      t := t + 1;
    }
    r := Sha1Spec.Regs(a, b, c, d, e);
  }

  class Context {
    const block: array<Byte>
    const hash: array<Word>
    var index: nat
    var low: nat
    var high: nat
    var computed: bool
    var corrupted: Status

    /** All input accepted so far. */
    ghost var message: seq<Byte>

    ghost predicate Shape() {
      block.Length == 64 && hash.Length == 5
    }

    ghost function Regs(): Sha1Spec.Regs
      requires Shape()
      reads hash
    {
      Sha1Spec.Regs(hash[0], hash[1], hash[2], hash[3], hash[4])
    }

    /** The blocks so far are hashed, the rest waits in the block, the counters hold the length in bits. */
    ghost predicate Collecting() reads this, block, hash {
      && Shape() && index == |Tail(message)| < 64
      && block[..index] == Tail(message)
      && Regs() == Hash(Whole(message))
      && Counts(|message|, high, low, corrupted)
    }

    /** Either collecting, or done: then the hash is that of the padded message. */
    ghost predicate Valid() reads this, block, hash {
      && Shape()
      && (!computed ==> Collecting())
      && (!computed && corrupted == Success ==> Counted(|message|))
      && (computed ==> Counted(|message|) && Regs() == Hash(Padded(message)) && corrupted != TooLong)
    }

    /** A context on which `SHA1Reset` has been called. */
    constructor ()
      ensures Valid() && fresh(block) && fresh(hash)
      ensures message == [] && !computed && corrupted == Success
    {
      block := new Byte[64];
      hash := new Word[5];
      new;
      Reset();
    }

    /** `SHA1Reset`. */
    method Reset()
      requires Shape()
      modifies this, hash
      ensures Valid() && message == [] && !computed && corrupted == Success
    {
      Empty();
      hide Hash, Whole, Tail, Padded, Compress;
      low := 0;
      high := 0;
      index := 0;
      hash[0] := 0x67452301;
      hash[1] := 0xEFCDAB89;
      hash[2] := 0x98BADCFE;
      hash[3] := 0x10325476;
      hash[4] := 0xC3D2E1F0;
      computed := false;
      corrupted := Success;
      message := [];
    }

    /** The first loops of `SHA1ProcessMessageBlock`: the word sequence. */
    method Schedule() returns (w: array<Word>)
      requires Shape()
      ensures fresh(w) && w.Length == 80 && w[..] == Words80(block[..])
    {
      hide Rotl, Xor, BigEndian;
      w := new Word[80];
      var t := 0;
      while t < 16
        invariant 0 <= t <= 16 && forall i :: 0 <= i < t ==> w[i] == W(block[..], i)
      {
        w[t] := BigEndian(block[t * 4], block[t * 4 + 1], block[t * 4 + 2], block[t * 4 + 3]);
        t := t + 1;
      }
      while t < 80
        invariant 16 <= t <= 80 && forall i :: 0 <= i < t ==> w[i] == W(block[..], i)
      {
        w[t] := Rotl(Xor(Xor(Xor(w[t - 3], w[t - 8]), w[t - 14]), w[t - 16]), 1);
        t := t + 1;
      }
    }

    /** `SHA1ProcessMessageBlock`. */
    method ProcessMessageBlock()
      requires Shape()
      modifies this`index, hash
      ensures index == 0 && Regs() == Compress(old(Regs()), block[..])
    {
      var w := Schedule();
      var h := Sha1Spec.Regs(hash[0], hash[1], hash[2], hash[3], hash[4]);
      var r := Mix(w, h);
      AddRegs(r);
      index := 0;
    }

    /** Its last lines. */
    method AddRegs(r: Regs)
      requires Shape()
      modifies hash
      ensures Regs() == Sum(old(Regs()), r)
    {
      hide Add;
      hash[0] := Add(hash[0], r.a);
      hash[1] := Add(hash[1], r.b);
      hash[2] := Add(hash[2], r.c);
      hash[3] := Add(hash[3], r.d);
      hash[4] := Add(hash[4], r.e);
    }

    /** Count one byte. */
    method CountByte(ghost n: nat)
      requires Counts(n, high, low, Success) && corrupted == Success
      modifies this`low, this`high, this`corrupted
      ensures Counts(n + 1, high, low, corrupted)
    {
      low := (low + 8) % 0x1_0000_0000;
      if low == 0 {
        high := (high + 1) % 0x1_0000_0000;
        if high == 0 {
          corrupted := TooLong;
        }
      }
    }

    /** Store one byte. */
    method StoreByte(b: Byte)
      requires Shape() && index < 64
      modifies this`index, block
      ensures index == old(index) + 1 && block[..index] == old(block[..index]) + [b]
    {
      block[index] := b;
      index := index + 1;
    }

    /** One round of the loop of `SHA1Input`. */
    method AcceptByte(b: Byte)
      requires Collecting() && corrupted == Success
      modifies this, block, hash
      ensures Collecting() && message == old(message) + [b] && computed == old(computed)
      ensures if Counted(|message|) then corrupted == Success
              else corrupted == TooLong && |message| == 0x2000_0000_0000_0000
    {
      OneMore(message, b);
      hide Hash, Compress, Whole, Tail;
      StoreByte(b);
      CountByte(|message|);
      message := message + [b];
      if index == 64 {
        assert block[..] == block[..64];
        ProcessMessageBlock();
        assert block[..0] == [];
      }
    }

    /** The loop of `SHA1Input`. */
    method InputLoop(input: seq<Byte>)
      requires Collecting() && corrupted == Success && Counted(|message|)
      modifies this, block, hash
      ensures Collecting() && computed == old(computed)
      ensures message == old(message) + Accepted(old(|message|), input)
      ensures corrupted == if Counted(old(|message|) + |input|) then Success else TooLong
    {
      hide Collecting;
      var i := 0;
      while i < |input| && corrupted == Success
        invariant 0 <= i <= |input| && Collecting() && computed == old(computed)
        invariant message == old(message) + input[..i]
        invariant if Counted(|message|) then corrupted == Success
                  else corrupted == TooLong && |message| == 0x2000_0000_0000_0000
      {
        AcceptByte(input[i]);
        i := i + 1;
      }
    }

    /** `SHA1Input`. It reports success even for the call in which the length runs over; every later call
        then reports the failure. */
    method Input(input: seq<Byte>) returns (result: Status)
      requires Valid() && |input| < 0x1_0000_0000
      modifies this, block, hash
      ensures Valid() && computed == old(computed)
      ensures input == [] || (!old(computed) && old(corrupted) == Success) ==> result == Success
      ensures input == [] ==> corrupted == old(corrupted) && message == old(message)
      ensures input != [] && old(computed) ==> result == StateError == corrupted && message == old(message)
      ensures input != [] && !old(computed) && old(corrupted) != Success ==>
                result == old(corrupted) == corrupted && message == old(message)
      ensures !old(computed) && old(corrupted) == Success ==>
                message == old(message) + Accepted(old(|message|), input)
                && corrupted == if Counted(old(|message|) + |input|) then Success else TooLong
    {
      hide Collecting, Hash, Padded;
      if input == [] { return Success; }
      if computed {
        corrupted := StateError;
        return StateError;
      }
      if corrupted != Success { return corrupted; }
      InputLoop(input);
      return Success;
    }

    /** Fill the block with zeros up to a position: the loops of `SHA1PadMessage`. */
    method FillZeros(end: nat)
      requires Shape() && index <= end <= 64
      modifies this`index, block
      ensures index == end && block[..end] == old(block[..index]) + Zeros(end - old(index))
    {
      while index < end
        invariant old(index) <= index <= end && block[..index] == old(block[..index]) + Zeros(index - old(index))
      {
        assert Zeros(index + 1 - old(index)) == Zeros(index - old(index)) + [0];
        StoreByte(0);
      }
    }

    /** Store the counters in the last 8 bytes. */
    method StoreLength()
      requires Shape() && low < 0x1_0000_0000
      modifies block
      ensures block[..] == old(block[..56]) + EightBytes(high * 0x1_0000_0000 + low)
    {
      hide Digit, EightBytes;
      CountersAre(high, low);
      block[56] := Digit(high, 3);
      block[57] := Digit(high, 2);
      block[58] := Digit(high, 1);
      block[59] := Digit(high, 0);
      block[60] := Digit(low, 3);
      block[61] := Digit(low, 2);
      block[62] := Digit(low, 1);
      block[63] := Digit(low, 0);
    }

    /** The bit and zeros behind the tail, when the length fits there too. */
    method PadShort()
      requires Shape() && index <= 55
      modifies this`index, block
      ensures block[..56] == old(block[..index]) + [0x80] + Zeros(55 - old(index))
    {
      hide Zeros;
      StoreByte(0x80);
      FillZeros(56);
    }

    /** The bit and zeros up to the end of the block, and a new block of zeros. */
    method PadLong()
      requires Shape() && 55 < index < 64
      modifies this`index, block, hash
      ensures block[..56] == Zeros(56)
      ensures Regs() == Compress(old(Regs()), old(block[..index]) + [0x80] + Zeros(63 - old(index)))
    {
      hide Zeros, Compress;
      StoreByte(0x80);
      FillZeros(64);
      assert block[..] == block[..64];
      ProcessMessageBlock();
      assert block[..0] == [];
      FillZeros(56);
    }

    /** The length goes in, and the last block is hashed. */
    method LastBlock(ghost n: nat)
      requires Shape() && low < 0x1_0000_0000 && high * 0x1_0000_0000 + low == 8 * n
      modifies this`index, block, hash
      ensures Regs() == Compress(old(Regs()), old(block[..56]) + EightBytes(8 * n))
    {
      hide EightBytes, Compress;
      StoreLength();
      ProcessMessageBlock();
    }

    lemma CollectingParts()
      requires Collecting() && corrupted == Success
      ensures Shape() && index == |Tail(message)| < 64 && block[..index] == Tail(message)
      ensures Regs() == Hash(Whole(message))
      ensures low < 0x1_0000_0000 && high * 0x1_0000_0000 + low == 8 * |message|
    {
      hide Hash, Whole, Tail;
      assert Counted(|message|);
    }

    /** `SHA1PadMessage`: one more block when the bit and the length fit behind the tail, else two. */
    method PadMessage()
      requires Collecting() && corrupted == Success
      modifies this`index, block, hash
      ensures Regs() == Hash(Padded(message))
    {
      hide Hash, Compress, Padded, Whole, Tail, Collecting, Zeros, EightBytes, Regs;
      CollectingParts();
      if index > 55 {
        PadTwo(message);
        PadLong();
      } else {
        PadOne(message);
        PadShort();
      }
      LastBlock(|message|);
    }

    /** `SHA1Result`. */
    method Result(digest: array<Byte>) returns (result: Status)
      requires Valid() && digest.Length == 20 && digest != block
      modifies this, block, hash, digest
      ensures Valid() && message == old(message) && result == old(corrupted) == corrupted
      ensures result == Success ==> computed && digest[..] == Digest(message)
      ensures result == Success && !old(computed) ==>
                low == high == 0 && forall i :: 0 <= i < 64 ==> block[i] == 0
      ensures result != Success ==> digest[..] == old(digest[..])
    {
      hide Hash, Padded, DigestBytes, Collecting, Counted;
      if corrupted != Success { return corrupted; }
      if !computed {
        PadMessage();
        FinishBlock();
        low := 0;
        high := 0;
        computed := true;
      }
      WriteDigest(digest);
      return Success;
    }

    /** Clear the block. */
    method FinishBlock()
      requires Shape()
      modifies block
      ensures forall i :: 0 <= i < 64 ==> block[i] == 0
    {
      var i := 0;
      while i < 64
        invariant 0 <= i <= 64 && forall j :: 0 <= j < i ==> block[j] == 0
      {
        block[i] := 0;
        i := i + 1;
      }
    }

    /** The digest bytes: `hash[i >> 2] >> 8 * (3 - (i & 3))`, cut to a byte. */
    method WriteDigest(digest: array<Byte>)
      requires Shape() && digest.Length == 20
      modifies digest
      ensures digest[..] == DigestBytes(Regs())
    {
      hide Digit;
      var i := 0;
      while i < 20
        invariant 0 <= i <= 20 && digest[..i] == DigestBytes(Regs())[..i]
      {
        digest[i] := Digit(hash[i / 4], 3 - i % 4);
        i := i + 1;
      }
    }
  }

  /** One input call per part: however a message is split, the digest is that of the whole, and there is
      none exactly when the length in bits does not fit 64 bits. */
  method DigestOfParts(parts: seq<seq<Byte>>) returns (digest: seq<Byte>, status: Status)
    requires forall i :: 0 <= i < |parts| ==> |parts[i]| < 0x1_0000_0000
    ensures status == Success <==> Counted(|Concat(parts)|)
    ensures status == Success ==> digest == Digest(Concat(parts))
  {
    var context := new Context();
    var i := 0;
    hide Hash, Padded, Digest, Context.Collecting;
    while i < |parts|
      invariant 0 <= i <= |parts| && context.Valid() && !context.computed && fresh(context.block) && fresh(context.hash)
      invariant context.corrupted == Success <==> Counted(|Concat(parts[..i])|)
      invariant context.corrupted == Success ==> context.message == Concat(parts[..i])
    {
      assert parts[..i + 1][..i] == parts[..i];
      var result := context.Input(parts[i]);
      i := i + 1;
    }
    assert parts[..|parts|] == parts;
    var out := new Byte[20];
    status := context.Result(out);
    digest := out[..];
  }
}
