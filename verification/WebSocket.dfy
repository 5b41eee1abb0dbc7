/** Client frames as sections 5.2 and 5.3 of RFC 6455 lay them out, and how src/c/websocket.c finds them
    in a buffer. */
module FrameSpec {
  import opened Bitwise
  import opened MachineInts
  import Masks
  import opened WordLaws
  import opened Words

  /** A frame: its first byte (FIN, RSV and opcode), its masking key and its payload. */
  datatype FrameData = FrameData(head: Byte, key: seq<Byte>, payload: seq<Byte>)

  type Frame = f: FrameData | |f.key| == 4 && |f.payload| < 0x1_0000_0000_0000_0000
    witness FrameData(0, [0, 0, 0, 0], [])

  function XorByte(a: Byte, b: Byte): Byte {
    BitsRange(XOR, 8, a, b);
    PowerOf8();
    Bits(XOR, 8, a, b)
  }

  /** Octet `i` of the payload is combined with octet `i` modulo 4 of the key. */
  function Masked(p: seq<Byte>, key: seq<Byte>): (s: seq<Byte>)
    requires |key| == 4
    ensures |s| == |p|
  {
    seq(|p|, i requires 0 <= i < |p| => XorByte(p[i], key[i % 4]))
  }

  /** The exclusive or of two bytes, as bit vectors. */
  lemma XorByteIs(x: bv32, y: bv32)
    requires Nat(x) < 0x100 && Nat(y) < 0x100 && Nat(Vector(XOR, x, y)) < 0x100
    ensures XorByte(Nat(x), Nat(y)) == Nat(Vector(XOR, x, y))
  {
    hide Bits, Nat, Vector;
    PowerOf8();
    WordOp(XOR, x, y);
    BitsLow(XOR, 32, 8, Nat(x), Nat(y));
  }

  /** Bit by bit: set where exactly one of the two bytes has it. */
  lemma XorByteBit(a: Byte, b: Byte, k: nat)
    requires k < 8
    ensures Bit(XorByte(a, b), k) <==> Bit(a, k) != Bit(b, k)
  {
    BitOf(XOR, 8, a, b, k);
  }

  lemma {:induction false} XorTwice(w: nat, a: nat, b: nat)
    requires a < Masks.Pow2(w)
    ensures Bits(XOR, w, Bits(XOR, w, a, b), b) == a
  {
    if w == 0 {
    } else {
      BitsParts(XOR, w, a, b);
      XorTwice(w - 1, a / 2, b / 2);
    }
  }

  /** Masking again unmasks. */
  lemma MaskedTwice(p: seq<Byte>, key: seq<Byte>)
    requires |key| == 4
    ensures Masked(Masked(p, key), key) == p
  {
    var m := Masked(p, key);
    PowerOf8();
    forall i | 0 <= i < |p| ensures Masked(m, key)[i] == p[i] {
      XorTwice(8, p[i], key[i % 4]);
    }
  }

  /** A number in `k` bytes, highest first, and back. */
  function NumberBytes(x: nat, k: nat): (s: seq<Byte>)
    ensures |s| == k
  {
    if k == 0 then [] else NumberBytes(x / 256, k - 1) + [x % 256]
  }

  function Number(s: seq<Byte>): nat {
    if s == [] then 0 else 256 * Number(s[..|s| - 1]) + s[|s| - 1]
  }

  lemma {:induction false} NumberRoundTrip(x: nat, k: nat)
    requires x < Pow256(k)
    ensures Number(NumberBytes(x, k)) == x
  {
    if k > 0 {
      assert x < 256 * Pow256(k - 1);
      hide Pow256;
      NumberRoundTrip(x / 256, k - 1);
      var s := NumberBytes(x, k);
      assert s[..|s| - 1] == NumberBytes(x / 256, k - 1);
    } else {
      assert x == 0;
    }
  }

  lemma {:induction false} NumberDigits(x: nat, k: nat, i: nat)
    requires i < k
    ensures NumberBytes(x, k)[i] == Digit(x, k - 1 - i)
  {
    if i < k - 1 {
      NumberDigits(x / 256, k - 1, i);
      DigitStep(x, k - 1 - i);
    } else {
      assert Pow256(0) == 1;
    }
  }

  /** The mask bit and the payload length in one of its three forms. */
  function LengthField(n: nat): (s: seq<Byte>)
    ensures |s| == if n <= 125 then 1 else if n <= 65535 then 3 else 9
  {
    if n <= 125 then [128 + n]
    else if n <= 65535 then [254] + NumberBytes(n, 2)
    else [255] + NumberBytes(n, 8)
  }

  /** Where a frame's payload starts in it. */
  function DataOffset(n: nat): (o: nat)
    ensures o == if n <= 125 then 6 else if n <= 65535 then 8 else 14
  {
    5 + |LengthField(n)|
  }

  function Wire(f: Frame): (s: seq<Byte>)
    ensures |s| == DataOffset(|f.payload|) + |f.payload|
  {
    [f.head] + LengthField(|f.payload|) + f.key + Masked(f.payload, f.key)
  }

  /** A number from eight bytes, highest first. */
  function Long(a: int, b: int, c: int, d: int, e: int, f: int, g: int, h: int): int {
    0x100_0000_0000_0000 * a + 0x1_0000_0000_0000 * b + 0x100_0000_0000 * c + 0x1_0000_0000 * d
    + 0x100_0000 * e + 0x1_0000 * f + 0x100 * g + h
  }

  lemma TwoBytes(n: nat)
    requires n <= 65535
    ensures var s := NumberBytes(n, 2); 0x100 * (s[0] as int) + s[1] == n
  {
    assert NumberBytes(n / 256, 1) == [n / 256 % 256];
  }

  lemma LastBytes(n: nat, k: nat)
    ensures NumberBytes(n, k + 2) == NumberBytes(n / 0x1_0000, k) + [n / 0x100 % 0x100, n % 0x100]
    ensures n == 0x1_0000 * (n / 0x1_0000) + 0x100 * (n / 0x100 % 0x100) + n % 0x100
  {
    assert n / 256 / 256 == n / 0x1_0000;
    assert NumberBytes(n / 256, k + 1) == NumberBytes(n / 0x1_0000, k) + [n / 0x100 % 0x100];
  }

  lemma EightBytes(n: nat)
    requires n < 0x1_0000_0000_0000_0000
    ensures var s := NumberBytes(n, 8);
            Long(s[0], s[1], s[2], s[3], s[4], s[5], s[6], s[7]) == n
  {
    var a := n / 0x1_0000;
    var b := a / 0x1_0000;
    var c := b / 0x1_0000;
    LastBytes(n, 6);
    LastBytes(a, 4);
    LastBytes(b, 2);
    LastBytes(c, 0);
    assert NumberBytes(c / 0x1_0000, 0) == [];
  }

  /** The bytes of a frame: the first one, the mask bit and the length in its form, highest byte first, the key,
      and the payload, each octet combined with one of the key. */
  lemma WireIs(f: Frame)
    ensures var s, n, o := Wire(f), |f.payload|, DataOffset(|f.payload|);
            && |s| == o + n && s[0] == f.head
            && s[1] == (if n <= 125 then 128 + n else if n <= 65535 then 254 else 255)
            && (125 < n <= 65535 ==> 0x100 * (s[2] as int) + s[3] == n)
            && (n > 65535 ==> Long(s[2], s[3], s[4], s[5], s[6], s[7], s[8], s[9]) == n)
            && s[o - 4..o] == f.key
            && forall i :: 0 <= i < n ==> s[o + i] == XorByte(f.payload[i], f.key[i % 4])
  {
    var n, l := |f.payload|, LengthField(|f.payload|);
    if n <= 125 {
    } else if n <= 65535 {
      TwoBytes(n);
    } else {
      EightBytes(n);
    }
    hide XorByte, NumberBytes;
    assert forall i :: 0 <= i < |l| ==> Wire(f)[1 + i] == l[i];
  }

  /** The masked "Hello" of section 5.7 of RFC 6455. */
  lemma HelloFrame()
    ensures Wire(FrameData(0x81, [0x37, 0xfa, 0x21, 0x3d], [0x48, 0x65, 0x6c, 0x6c, 0x6f]))
            == [0x81, 0x85, 0x37, 0xfa, 0x21, 0x3d, 0x7f, 0x9f, 0x4d, 0x51, 0x58]
  {
    XorByteIs(0x48, 0x37);
    XorByteIs(0x65, 0xfa);
    XorByteIs(0x6c, 0x21);
    XorByteIs(0x6c, 0x3d);
    XorByteIs(0x6f, 0x37);
    hide XorByte;
  }

  function Stream(fs: seq<Frame>): (s: seq<Byte>)
  {
    if fs == [] then [] else Wire(fs[0]) + Stream(fs[1..])
  }

  /** A payload as it is handed on: unmasked, or as it came. */
  function Text(f: Frame, unmask: bool): (s: seq<Byte>)
    ensures |s| == |f.payload|
  {
    if unmask then f.payload else Masked(f.payload, f.key)
  }

  /** The payloads in order, each with a NUL behind it. */
  function Messages(fs: seq<Frame>, unmask: bool): seq<Byte>
  {
    if fs == [] then [] else Text(fs[0], unmask) + [0] + Messages(fs[1..], unmask)
  }

  // ---- finding frames ----

  /** What `extract_frames` notes of a frame: where its payload starts, how long it is, the key, and how
      far it moves on. The length goes into an `unsigned int`. */
  datatype Found = Found(start: int, length: nat, key: seq<Byte>, advance: int)

  /** Memory outside the buffer reads as 0 here; no frame that lies in the buffer reads it. */
  function ByteAt(buf: seq<Byte>, i: int): Byte {
    if 0 <= i < |buf| then buf[i] else 0
  }

  function BytesAt(buf: seq<Byte>, i: int, k: nat): (s: seq<Byte>)
    ensures |s| == k
  {
    seq<Byte>(k, j requires 0 <= j < k => ByteAt(buf, i + j))
  }

  /** One round of the loop of `extract_frames`; `data_length + 5 + lensize` with lensize 1, 2 or 8, cut to
      an `int`. */
  function FindFrame(buf: seq<Byte>, off: int): (r: Found) {
    var n := ByteAt(buf, off + 1) % 128;
    if n <= 125 then Found(off + 6, n, BytesAt(buf, off + 2, 4), n + 6)
    else if n == 126 then
      var m := Number(BytesAt(buf, off + 2, 2));
      Found(off + 8, m % TWO32, BytesAt(buf, off + 4, 4), ToInt32(m + 7))
    else
      var m := Number(BytesAt(buf, off + 2, 8));
      Found(off + 14, m % TWO32, BytesAt(buf, off + 10, 4), ToInt32(m + 13))
  }

  /** At most `rounds` frames from `off` on, of `left` bytes. */
  function Scan(buf: seq<Byte>, off: int, left: int, rounds: nat): (r: seq<Found>)
    ensures |r| <= rounds
    decreases rounds
  {
    if rounds == 0 then []
    else
      var f := FindFrame(buf, off);
      if f.advance == left || left - f.advance < 6 then [f]
      else [f] + Scan(buf, off + f.advance, left - f.advance, rounds - 1)
  }

  /** The stretch of a buffer from `off` on starts with these bytes. */
  ghost predicate Holds(buf: seq<Byte>, off: nat, s: seq<Byte>) {
    off + |s| <= |buf| && buf[off..off + |s|] == s
  }

  lemma HoldsParts(buf: seq<Byte>, off: nat, a: seq<Byte>, b: seq<Byte>)
    requires Holds(buf, off, a + b)
    ensures Holds(buf, off, a) && Holds(buf, off + |a|, b)
  {
    var t := buf[off..off + |a + b|];
    assert buf[off..off + |a|] == t[..|a|] == a;
    assert buf[off + |a|..off + |a| + |b|] == t[|a|..] == b;
  }

  lemma HoldsBytes(buf: seq<Byte>, off: nat, s: seq<Byte>)
    requires Holds(buf, off, s)
    ensures BytesAt(buf, off, |s|) == s
    ensures forall i :: 0 <= i < |s| ==> ByteAt(buf, off + i) == s[i]
  {
    forall i | 0 <= i < |s| ensures ByteAt(buf, off + i) == s[i] {
      assert buf[off..off + |s|][i] == s[i];
    }
  }

  lemma FirstByte(n: nat)
    ensures LengthField(n)[0] % 128 == if n <= 125 then n else if n <= 65535 then 126 else 127
  {}

  lemma ShortIs(buf: seq<Byte>, off: nat, n: nat, key: seq<Byte>)
    requires ByteAt(buf, off + 1) % 128 == n <= 125 && BytesAt(buf, off + 2, 4) == key
    ensures FindFrame(buf, off) == Found(off + 6, n % TWO32, key, ToInt32(n + 6))
  {
    hide ByteAt, BytesAt;
  }

  lemma MiddleIs(buf: seq<Byte>, off: nat, n: nat, key: seq<Byte>)
    requires ByteAt(buf, off + 1) % 128 == 126 && BytesAt(buf, off + 4, 4) == key
    requires Number(BytesAt(buf, off + 2, 2)) == n
    ensures FindFrame(buf, off) == Found(off + 8, n % TWO32, key, ToInt32(n + 7))
  {
    hide ByteAt, BytesAt, Number;
  }

  lemma LongIs(buf: seq<Byte>, off: nat, n: nat, key: seq<Byte>)
    requires ByteAt(buf, off + 1) % 128 == 127 && BytesAt(buf, off + 10, 4) == key
    requires Number(BytesAt(buf, off + 2, 8)) == n
    ensures FindFrame(buf, off) == Found(off + 14, n % TWO32, key, ToInt32(n + 13))
  {
    hide ByteAt, BytesAt, Number;
  }

  lemma FrameParts(buf: seq<Byte>, off: nat, f: Frame)
    requires Holds(buf, off, Wire(f))
    ensures var l := LengthField(|f.payload|);
            Holds(buf, off, [f.head]) && Holds(buf, off + 1, l) && Holds(buf, off + 1 + |l|, f.key)
            && Holds(buf, off + DataOffset(|f.payload|), Masked(f.payload, f.key))
  {
    var l, m := LengthField(|f.payload|), Masked(f.payload, f.key);
    HoldsParts(buf, off, [f.head] + l + f.key, m);
    HoldsParts(buf, off, [f.head] + l, f.key);
    HoldsParts(buf, off, [f.head], l);
  }

  lemma PowerValues()
    ensures Pow256(2) == 0x1_0000 && Pow256(8) == 0x1_0000_0000_0000_0000
  {
    assert Pow256(2) == 256 * Pow256(1);
    assert Pow256(4) == 256 * Pow256(3);
    assert Pow256(6) == 256 * Pow256(5);
    assert Pow256(8) == 256 * Pow256(7);
  }

  lemma LongLength(buf: seq<Byte>, off: nat, n: nat, k: nat)
    requires Holds(buf, off + 1, [if k == 2 then 254 else 255] + NumberBytes(n, k))
    requires (k == 2 && n <= 65535) || (k == 8 && n < 0x1_0000_0000_0000_0000)
    ensures Number(BytesAt(buf, off + 2, k)) == n
  {
    HoldsParts(buf, off + 1, [if k == 2 then 254 else 255], NumberBytes(n, k));
    HoldsBytes(buf, off + 2, NumberBytes(n, k));
    PowerValues();
    NumberRoundTrip(n, k);
  }

  /** A frame is found with its payload and key. The way to the next one is right for payloads of up to
      125 bytes and one byte short for longer ones, as far as an `int` can say. */
  lemma FindsFrame(buf: seq<Byte>, off: nat, f: Frame)
    requires Holds(buf, off, Wire(f))
    ensures var r := FindFrame(buf, off);
            r.start == off + DataOffset(|f.payload|) && r.length == |f.payload| % TWO32 && r.key == f.key
            && r.advance == ToInt32(if |f.payload| <= 125 then |Wire(f)| else |Wire(f)| - 1)
  {
    var n, l := |f.payload|, LengthField(|f.payload|);
    FrameParts(buf, off, f);
    HoldsBytes(buf, off + 1, l);
    HoldsBytes(buf, off + 1 + |l|, f.key);
    assert ByteAt(buf, off + 1 + 0) == l[0];
    FirstByte(n);
    if n <= 125 {
      hide *;
      ShortIs(buf, off, n, f.key);
    } else if n <= 65535 {
      LongLength(buf, off, n, 2);
      hide *;
      MiddleIs(buf, off, n, f.key);
    } else {
      LongLength(buf, off, n, 8);
      hide *;
      LongIs(buf, off, n, f.key);
    }
  }

  /** Where frame `i` of a stream starts. */
  function FrameStart(fs: seq<Frame>, i: nat): nat
    requires i <= |fs|
  {
    if i == 0 then 0 else |Wire(fs[0])| + FrameStart(fs[1..], i - 1)
  }

  /** `r` is frame `i` of a stream that starts at `off`. */
  predicate Located(r: Found, fs: seq<Frame>, off: nat, i: nat)
  {
    && i < |fs| && r.length == |fs[i].payload| && r.key == fs[i].key
    && r.start == off + FrameStart(fs, i) + DataOffset(|fs[i].payload|)
  }

  /** The frames found are the first frames of the stream. */
  ghost predicate FoundRight(r: seq<Found>, fs: seq<Frame>, off: nat, rounds: nat)
  {
    |r| == Min(rounds, |fs|) && forall i :: 0 <= i < |r| ==> Located(r[i], fs, off, i)
  }

  /** No frame that another one is looked for behind has a payload of more than 125 bytes. */
  ghost predicate ShortBefore(fs: seq<Frame>, rounds: nat) {
    forall i :: 0 <= i < |fs| - 1 && i < rounds - 1 ==> |fs[i].payload| <= 125
  }

  lemma StreamLength(fs: seq<Frame>)
    requires fs != []
    ensures |Stream(fs)| >= 6
  {}

  lemma StreamCons(fs: seq<Frame>)
    requires fs != []
    ensures Stream(fs) == Wire(fs[0]) + Stream(fs[1..])
    ensures |fs[1..]| == |fs| - 1
    ensures if fs[1..] == [] then Stream(fs[1..]) == [] else |Stream(fs[1..])| >= 6
  {
    if fs[1..] != [] { StreamLength(fs[1..]); }
  }

  lemma FirstLocated(r: Found, fs: seq<Frame>, off: nat)
    requires fs != [] && r.length == |fs[0].payload| && r.key == fs[0].key
    requires r.start == off + DataOffset(|fs[0].payload|)
    ensures Located(r, fs, off, 0)
  {}

  lemma ScanUnfold(buf: seq<Byte>, off: int, left: int, rounds: nat)
    requires rounds > 0
    ensures var f := FindFrame(buf, off);
            && (f.advance == left || left - f.advance < 6 || rounds == 1 ==> Scan(buf, off, left, rounds) == [f])
            && (!(f.advance == left || left - f.advance < 6) ==>
                  Scan(buf, off, left, rounds) == [f] + Scan(buf, off + f.advance, left - f.advance, rounds - 1))
  {
    hide FindFrame;
    var f := FindFrame(buf, off);
    assert rounds == 1 ==> Scan(buf, off + f.advance, left - f.advance, rounds - 1) == [];
  }

  /** The first frame takes `w` bytes, and the search moves on by as many, or by one less. */
  lemma ScanCases(buf: seq<Byte>, off: nat, w: nat, rest: nat, rounds: nat, short: bool)
    requires rounds > 0 && w >= 6 && (rest == 0 || rest >= 6)
    requires FindFrame(buf, off).advance == if short then w else w - 1
    ensures rest == 0 || rounds == 1 ==> Scan(buf, off, w + rest, rounds) == [FindFrame(buf, off)]
    ensures rest > 0 && rounds > 1 && short ==>
              Scan(buf, off, w + rest, rounds) == [FindFrame(buf, off)] + Scan(buf, off + w, rest, rounds - 1)
    ensures rest > 0 && rounds > 1 && !short ==>
              Scan(buf, off, w + rest, rounds) == [FindFrame(buf, off)] + Scan(buf, off + w - 1, rest + 1, rounds - 1)
  {
    hide FindFrame, Scan;
    ScanUnfold(buf, off, w + rest, rounds);
  }

  /** The first frame found, and where the search goes on. */
  lemma ScanFirst(buf: seq<Byte>, off: nat, fs: seq<Frame>, rounds: nat)
    requires fs != [] && rounds > 0 && Holds(buf, off, Stream(fs)) && |Stream(fs)| < TWO31
    ensures var r := Scan(buf, off, |Stream(fs)|, rounds);
            var f, rest := fs[0], fs[1..];
            && r != [] && Located(r[0], fs, off, 0)
            && (rest == [] || rounds == 1 ==> |r| == 1)
            && (rest != [] && rounds > 1 ==>
                  r == [r[0]] + (if |f.payload| <= 125 then Scan(buf, off + |Wire(f)|, |Stream(rest)|, rounds - 1)
                                 else Scan(buf, off + |Wire(f)| - 1, |Stream(rest)| + 1, rounds - 1)))
  {
    hide *;
    StreamCons(fs);
    var f, rest := fs[0], fs[1..];
    HoldsParts(buf, off, Wire(f), Stream(rest));
    FindsFrame(buf, off, f);
    Int32Same(|Wire(f)|);
    Int32Same(|Wire(f)| - 1);
    Int32Same(|f.payload|);
    ScanCases(buf, off, |Wire(f)|, |Stream(rest)|, rounds, |f.payload| <= 125);
    FirstLocated(FindFrame(buf, off), fs, off);
  }

  lemma OneRound(r: seq<Found>, fs: seq<Frame>, off: nat, rounds: nat)
    requires |r| == 1 && fs != [] && Located(r[0], fs, off, 0) && rounds > 0
    requires fs[1..] == [] || rounds == 1
    ensures FoundRight(r, fs, off, rounds) && ShortBefore(fs, rounds)
  {
    assert |fs[1..]| == |fs| - 1;
  }

  lemma FirstFound(buf: seq<Byte>, off: int, left: int, rounds: nat)
    requires rounds > 0
    ensures var r := Scan(buf, off, left, rounds);
            r != [] && r[0].start - off in {6, 8, 14}
            && (r[0].start - off == 6 ==> r[0].length <= 125)
  {}

  /** Behind a long frame the next one is looked for one byte early. */
  lemma Misses(r: seq<Found>, t: seq<Found>, buf: seq<Byte>, fs: seq<Frame>, off: nat, rounds: nat)
    requires |fs| > 1 && rounds > 1 && r != [] && r == [r[0]] + t && t != []
    requires |fs[0].payload| > 125 && t[0].start - (off + |Wire(fs[0])| - 1) in {6, 8, 14}
    ensures !FoundRight(r, fs, off, rounds) && !ShortBefore(fs, rounds)
  {
    assert FrameStart(fs, 1) == |Wire(fs[0])| + FrameStart(fs[1..], 0);
    assert r[1] == t[0] && !Located(r[1], fs, off, 1);
    assert 0 < |fs| - 1 && 0 < rounds - 1 && |fs[0].payload| > 125;
  }

  lemma LocatedLater(f: Found, fs: seq<Frame>, off: nat, i: nat)
    requires fs != []
    ensures Located(f, fs[1..], off + |Wire(fs[0])|, i) <==> Located(f, fs, off, i + 1)
  {
    if i < |fs| - 1 { assert FrameStart(fs, i + 1) == |Wire(fs[0])| + FrameStart(fs[1..], i); }
  }

  /** The frames found behind the first one. */
  lemma LaterFound(r: seq<Found>, t: seq<Found>, fs: seq<Frame>, off: nat, rounds: nat)
    requires |fs| > 1 && rounds > 1 && r != [] && r == [r[0]] + t && Located(r[0], fs, off, 0)
    ensures FoundRight(r, fs, off, rounds) <==> FoundRight(t, fs[1..], off + |Wire(fs[0])|, rounds - 1)
  {
    hide Located, Wire;
    var rest, off' := fs[1..], off + |Wire(fs[0])|;
    forall i | 0 <= i < |t| ensures Located(t[i], rest, off', i) <==> Located(r[i + 1], fs, off, i + 1) {
      LocatedLater(t[i], fs, off, i);
      assert r[i + 1] == t[i];
    }
    if FoundRight(t, rest, off', rounds - 1) {
      forall i | 0 <= i < |r| ensures Located(r[i], fs, off, i) {
        if i > 0 { assert Located(t[i - 1], rest, off', i - 1); }
      }
    }
    if FoundRight(r, fs, off, rounds) {
      forall i | 0 <= i < |t| ensures Located(t[i], rest, off', i) {
        assert Located(r[i + 1], fs, off, i + 1);
      }
    }
  }

  lemma LaterShort(fs: seq<Frame>, rounds: nat)
    requires |fs| > 1 && rounds > 1 && |fs[0].payload| <= 125
    ensures ShortBefore(fs, rounds) <==> ShortBefore(fs[1..], rounds - 1)
  {
    var rest := fs[1..];
    if ShortBefore(rest, rounds - 1) {
      forall i | 0 <= i < |fs| - 1 && i < rounds - 1 ensures |fs[i].payload| <= 125 {
        if i > 0 { assert fs[i] == rest[i - 1]; }
      }
    }
    if ShortBefore(fs, rounds) {
      forall i | 0 <= i < |rest| - 1 && i < rounds - 2 ensures |rest[i].payload| <= 125 {
        assert rest[i] == fs[i + 1];
      }
    }
  }

  /** The frames of a stream are found exactly when all but the last one looked at are short. */
  lemma {:induction false} ScanStream(buf: seq<Byte>, off: nat, fs: seq<Frame>, rounds: nat)
    requires fs != [] && rounds > 0 && Holds(buf, off, Stream(fs)) && |Stream(fs)| < TWO31
    ensures FoundRight(Scan(buf, off, |Stream(fs)|, rounds), fs, off, rounds) <==> ShortBefore(fs, rounds)
    decreases rounds
  {
    hide *;
    StreamCons(fs);
    ScanFirst(buf, off, fs, rounds);
    var f, rest := fs[0], fs[1..];
    var r := Scan(buf, off, |Stream(fs)|, rounds);
    HoldsParts(buf, off, Wire(f), Stream(rest));
    if rest == [] || rounds == 1 {
      OneRound(r, fs, off, rounds);
    } else if |f.payload| <= 125 {
      ScanStream(buf, off + |Wire(f)|, rest, rounds - 1);
      LaterShort(fs, rounds);
      LaterFound(r, Scan(buf, off + |Wire(f)|, |Stream(rest)|, rounds - 1), fs, off, rounds);
    } else {
      FirstFound(buf, off + |Wire(f)| - 1, |Stream(rest)| + 1, rounds - 1);
      Misses(r, Scan(buf, off + |Wire(f)| - 1, |Stream(rest)| + 1, rounds - 1), buf, fs, off, rounds);
    }
  }

  lemma {:induction false} FrameStartStep(fs: seq<Frame>, i: nat)
    requires i < |fs|
    ensures FrameStart(fs, i + 1) == FrameStart(fs, i) + |Wire(fs[i])|
    ensures Stream(fs[i..]) == Wire(fs[i]) + Stream(fs[i + 1..])
  {
    assert fs[i..][0] == fs[i] && fs[i..][1..] == fs[i + 1..];
    if i == 0 {
    } else {
      FrameStartStep(fs[1..], i - 1);
    }
  }

  /** Each frame of a stream is in the buffer where its start says. */
  lemma {:induction false} FrameHeld(buf: seq<Byte>, off: nat, fs: seq<Frame>, i: nat)
    requires Holds(buf, off, Stream(fs)) && i < |fs|
    ensures Holds(buf, off + FrameStart(fs, i), Wire(fs[i]))
    decreases i
  {
    hide Holds, Wire;
    StreamCons(fs);
    HoldsParts(buf, off, Wire(fs[0]), Stream(fs[1..]));
    if i == 0 {
    } else {
      FrameHeld(buf, off + |Wire(fs[0])|, fs[1..], i - 1);
    }
  }

  // ---- the messages of the frames found ----

  /** The frames found lie in a buffer of this size. */
  predicate Inside(frames: seq<Found>, size: nat) {
    forall i :: 0 <= i < |frames| ==> 0 <= frames[i].start && frames[i].start + frames[i].length <= size
  }

  /** The payload found, unmasked or as it came. */
  function FoundText(buf: seq<Byte>, f: Found, unmask: bool): (s: seq<Byte>)
    requires |f.key| == 4 && 0 <= f.start && f.start + f.length <= |buf|
    ensures |s| == f.length
  {
    var data := buf[f.start..f.start + f.length];
    if unmask then Masked(data, f.key) else data
  }

  predicate Keyed(frames: seq<Found>) {
    forall i :: 0 <= i < |frames| ==> |frames[i].key| == 4
  }

  /** The payloads of the first `k` frames found, each with a NUL behind it. */
  function FoundMessages(buf: seq<Byte>, frames: seq<Found>, k: nat, unmask: bool): seq<Byte>
    requires k <= |frames| && Inside(frames, |buf|) && Keyed(frames)
  {
    if k == 0 then []
    else FoundMessages(buf, frames, k - 1, unmask) + FoundText(buf, frames[k - 1], unmask) + [0]
  }

  lemma NoRounds(buf: seq<Byte>, off: int, left: int)
    ensures Scan(buf, off, left, 0) == []
  {}

  lemma FoundKey(buf: seq<Byte>, off: int)
    ensures |FindFrame(buf, off).key| == 4
  {}

  lemma {:induction false} ScanKeyed(buf: seq<Byte>, off: int, left: int, rounds: nat)
    ensures Keyed(Scan(buf, off, left, rounds)) && (rounds > 0 ==> Scan(buf, off, left, rounds) != [])
    decreases rounds
  {
    hide FindFrame;
    if rounds == 0 {
      NoRounds(buf, off, left);
    } else {
      var f := FindFrame(buf, off);
      FoundKey(buf, off);
      ScanKeyed(buf, off + f.advance, left - f.advance, rounds - 1);
    }
  }

  /** A frame ends before the payload of the next one starts. */
  ghost predicate Ordered(frames: seq<Found>) {
    forall i :: 0 <= i < |frames| - 1 ==> frames[i].start + frames[i].length <= frames[i + 1].start
  }

  lemma OrderedCons(f: Found, t: seq<Found>, size: nat)
    requires Inside([f] + t, size)
    ensures f.start + f.length <= size && Inside(t, size)
    ensures Ordered(t) && (t != [] ==> f.start + f.length <= t[0].start) ==> Ordered([f] + t)
  {
    var r := [f] + t;
    assert r[0] == f && forall i :: 0 <= i < |t| ==> t[i] == r[i + 1];
    if Ordered(t) && (t != [] ==> f.start + f.length <= t[0].start) {
      forall i | 0 <= i < |r| - 1 ensures r[i].start + r[i].length <= r[i + 1].start {
        if i > 0 { assert t[i - 1].start + t[i - 1].length <= t[i - 1 + 1].start; }
      }
    }
  }

  /** A sum is cut like the sum of what is cut. */
  lemma CutSum(m: nat, k: nat)
    ensures ToInt32(m + k) == ToInt32(m % TWO32 + k)
  {
    var q, r := m / TWO32, m % TWO32;
    assert m + k == q * TWO32 + (r + k);
  }

  lemma AdvanceEnough(buf: seq<Byte>, off: nat)
    requires |buf| < TWO31 && FindFrame(buf, off).start + FindFrame(buf, off).length <= |buf|
    ensures var f := FindFrame(buf, off); f.advance >= 6 && f.start + f.length <= off + f.advance + 1
  {
    hide ByteAt, BytesAt, Number;
    CutSum(Number(BytesAt(buf, off + 2, 2)), 7);
    CutSum(Number(BytesAt(buf, off + 2, 8)), 13);
  }

  /** Frames that lie in the buffer are found one behind the other. */
  lemma {:induction false} ScanOrdered(buf: seq<Byte>, off: nat, left: int, rounds: nat)
    requires |buf| < TWO31 && Inside(Scan(buf, off, left, rounds), |buf|)
    ensures Ordered(Scan(buf, off, left, rounds))
    decreases rounds
  {
    hide FindFrame, Scan, Inside;
    if rounds == 0 {
      NoRounds(buf, off, left);
    } else {
      var f := FindFrame(buf, off);
      ScanUnfold(buf, off, left, rounds);
      if f.advance == left || left - f.advance < 6 {
        assert [f] == [f] + [];
      } else {
        var t := Scan(buf, off + f.advance, left - f.advance, rounds - 1);
        OrderedCons(f, t, |buf|);
        AdvanceEnough(buf, off);
        if t != [] {
          ScanOrdered(buf, off + f.advance, left - f.advance, rounds - 1);
          if rounds > 1 { FirstFound(buf, off + f.advance, left - f.advance, rounds - 1); }
        }
      }
    }
  }

  lemma Rejoin(a: seq<Byte>, b: seq<Byte>, c: seq<Byte>)
    ensures a + (b + c + [0]) == a + b + c + [0]
  {}

  lemma {:induction false} MessagesNext(fs: seq<Frame>, k: nat, unmask: bool)
    requires k < |fs|
    ensures Messages(fs[..k + 1], unmask) == Messages(fs[..k], unmask) + Text(fs[k], unmask) + [0]
  {
    var a, b := fs[..k], fs[..k + 1];
    if k == 0 {
      assert b[1..] == [];
    } else {
      assert a[1..] == fs[1..][..k - 1] && b[1..] == fs[1..][..k];
      MessagesNext(fs[1..], k - 1, unmask);
      hide Text;
      Rejoin(Text(fs[0], unmask) + [0], Messages(a[1..], unmask), Text(fs[k], unmask));
    }
  }

  lemma TextAt(buf: seq<Byte>, f: Found, g: Frame, unmask: bool)
    requires 0 <= f.start && f.length == |g.payload| && f.key == g.key && Holds(buf, f.start, Masked(g.payload, g.key))
    ensures f.start + f.length <= |buf| && FoundText(buf, f, unmask) == Text(g, unmask)
  {
    MaskedTwice(g.payload, g.key);
    hide Masked;
  }

  lemma LocatedText(buf: seq<Byte>, fs: seq<Frame>, f: Found, i: nat, unmask: bool)
    requires Holds(buf, 0, Stream(fs)) && Located(f, fs, 0, i)
    ensures |f.key| == 4 && 0 <= f.start && f.start + f.length <= |buf|
    ensures FoundText(buf, f, unmask) == Text(fs[i], unmask)
  {
    hide Holds, Stream, Wire, LengthField, Masked, FoundText, Text, FrameStart;
    FrameHeld(buf, 0, fs, i);
    FrameParts(buf, FrameStart(fs, i), fs[i]);
    TextAt(buf, f, fs[i], unmask);
  }

  ghost predicate AllLocated(frames: seq<Found>, fs: seq<Frame>) {
    |frames| == |fs| && forall i :: 0 <= i < |frames| ==> Located(frames[i], fs, 0, i)
  }

  lemma LocatedAt(frames: seq<Found>, fs: seq<Frame>, i: nat)
    requires AllLocated(frames, fs) && i < |frames|
    ensures |frames| == |fs| && Located(frames[i], fs, 0, i)
  {}

  lemma LocatedInside(buf: seq<Byte>, frames: seq<Found>, fs: seq<Frame>)
    requires Holds(buf, 0, Stream(fs)) && AllLocated(frames, fs)
    ensures Inside(frames, |buf|) && Keyed(frames)
  {
    forall i | 0 <= i < |frames|
      ensures |frames[i].key| == 4 && 0 <= frames[i].start && frames[i].start + frames[i].length <= |buf|
    {
      LocatedText(buf, fs, frames[i], i, true);
    }
  }

  lemma {:induction false} StreamMessages(buf: seq<Byte>, frames: seq<Found>, fs: seq<Frame>, k: nat, unmask: bool)
    requires Holds(buf, 0, Stream(fs)) && AllLocated(frames, fs) && k <= |frames|
    requires Inside(frames, |buf|) && Keyed(frames)
    ensures FoundMessages(buf, frames, k, unmask) == Messages(fs[..k], unmask)
    decreases k
  {
    hide Holds, Stream, AllLocated, Located, Inside, Keyed, FoundText, Text;
    if k == 0 {
    } else {
      StreamMessages(buf, frames, fs, k - 1, unmask);
      LocatedAt(frames, fs, k - 1);
      LocatedText(buf, fs, frames[k - 1], k - 1, unmask);
      MessagesNext(fs, k - 1, unmask);
    }
  }

  /** In a stream of one to four frames, all short but the last, the messages found are the payloads in
      order. */
  lemma StreamFound(buf: seq<Byte>, fs: seq<Frame>, rounds: nat, unmask: bool)
    requires Holds(buf, 0, Stream(fs)) && |Stream(fs)| < TWO31 && 0 < |fs| < rounds && ShortBefore(fs, rounds)
    ensures var frames := Scan(buf, 0, |Stream(fs)|, rounds);
            && |frames| == |fs| && Inside(frames, |buf|) && Keyed(frames)
            && FoundMessages(buf, frames, |frames|, unmask) == Messages(fs, unmask)
  {
    var frames := Scan(buf, 0, |Stream(fs)|, rounds);
    ScanStream(buf, 0, fs, rounds);
    assert AllLocated(frames, fs);
    assert fs[..|fs|] == fs;
    hide Scan, Holds, Stream, AllLocated, ShortBefore, Inside, Keyed, FoundMessages, Messages;
    LocatedInside(buf, frames, fs);
    StreamMessages(buf, frames, fs, |frames|, unmask);
  }
}

/** `websocket_send`, `extract_frames` and `websocket_recv`. */
module WebSocket {
  import opened FrameSpec
  import opened MachineInts
  import opened Words

  const MAX_FRAMES := 5
  const TEXT: Byte := 129
  const CLOSE: Byte := 136

  /** What is found already, and what a search from here would find, is all. */
  ghost predicate Scanning(all: seq<Found>, frames: seq<Found>, buf: seq<Byte>, off: int, left: int, rounds: nat) {
    frames + Scan(buf, off, left, rounds) == all
  }

  lemma ScanEnds(all: seq<Found>, frames: seq<Found>, buf: seq<Byte>, off: int, left: int)
    requires Scanning(all, frames, buf, off, left, 0)
    ensures frames == all
  {
    assert frames + [] == frames;
  }

  lemma ScanNext(all: seq<Found>, frames: seq<Found>, buf: seq<Byte>, off: int, left: int, rounds: nat)
    requires rounds > 0 && Scanning(all, frames, buf, off, left, rounds)
    ensures var f := FindFrame(buf, off);
            if f.advance == left || left - f.advance < 6 then frames + [f] == all
            else Scanning(all, frames + [f], buf, off + f.advance, left - f.advance, rounds - 1)
  {
    var f := FindFrame(buf, off);
    ScanUnfold(buf, off, left, rounds);
    var rest := Scan(buf, off + f.advance, left - f.advance, rounds - 1);
    hide FindFrame, Scan;
    if !(f.advance == left || left - f.advance < 6) {
      assert frames + ([f] + rest) == frames + [f] + rest;
    }
  }

  /** `extract_frames` */
  method ExtractFrames(buf: seq<Byte>, length: int) returns (frames: seq<Found>)
    ensures frames == Scan(buf, 0, length, MAX_FRAMES)
  {
    frames := [];
    var off, left, x := 0, length, 0;
    ghost var all := Scan(buf, 0, length, MAX_FRAMES);
    assert Scanning(all, frames, buf, 0, length, MAX_FRAMES) by { assert [] + all == all; }
    hide Scan, FindFrame, Scanning;
    while x < MAX_FRAMES
      invariant 0 <= x <= MAX_FRAMES && Scanning(all, frames, buf, off, left, MAX_FRAMES - x)
    {
      ScanNext(all, frames, buf, off, left, MAX_FRAMES - x);
      var f := FindFrame(buf, off);
      frames := frames + [f];
      if f.advance == left { return; }
      left := left - f.advance;
      if left < 6 { return; }
      off := off + f.advance;
      x := x + 1;
    }
    ScanEnds(all, frames, buf, off, left);
  }

  lemma MaskedAt(data: seq<Byte>, key: seq<Byte>, y: nat)
    requires |key| == 4 && y < |data|
    ensures Masked(data, key)[y] == XorByte(data[y], key[y % 4])
  {}

  lemma Copied(before: seq<Byte>, after: seq<Byte>, pos: nat, text: seq<Byte>)
    requires |before| == |after| && pos + |text| < |after| && after[pos + |text|] == 0
    requires forall k :: 0 <= k < pos ==> after[k] == before[k]
    requires forall k :: 0 <= k < |text| ==> after[pos + k] == text[k]
    ensures after[..pos + |text| + 1] == before[..pos] + text + [0]
  {}

  /** The inner loop of `websocket_recv` and the NUL after it: one payload, unmasked in place and copied. */
  method CopyPayload(packet: array<Byte>, start: nat, n: nat, key: seq<Byte>, unmask: bool, msg: array<Byte>, pos: nat)
    requires |key| == 4 && start + n <= packet.Length && pos + n < msg.Length && packet != msg
    modifies packet, msg
    ensures var data := old(packet[start..start + n]);
            msg[..pos + n + 1] == old(msg[..pos]) + (if unmask then Masked(data, key) else data) + [0]
    ensures packet[start + n..] == old(packet[start + n..])
  {
    hide XorByte, Masked;
    ghost var data, before, was := packet[start..start + n], msg[..], packet[..];
    ghost var text := if unmask then Masked(data, key) else data;
    var y := 0;
    while y < n
      invariant 0 <= y <= n
      invariant forall k :: 0 <= k < pos ==> msg[k] == before[k]
      invariant forall k :: 0 <= k < y ==> msg[pos + k] == text[k]
      invariant forall k :: start + y <= k < packet.Length ==> packet[k] == was[k]
    {
      if unmask { MaskedAt(data, key, y); }
      var b := if unmask then XorByte(packet[start + y], key[y % 4]) else packet[start + y];
      packet[start + y] := b;
      msg[pos + y] := b;
      y := y + 1;
    }
    msg[pos + n] := 0;
    Copied(before, msg[..], pos, text);
    assert msg[..pos + n + 1] == msg[..][..pos + n + 1] && before[..pos] == old(msg[..pos]);
  }

  /** Is the packet taken apart at all? */
  predicate Accepted(head: Byte) {
    head == TEXT || (head != CLOSE && head / 2 % 2 == 1)
  }

  /** Of the final frames without reserved bits a text frame is taken apart, a close frame and a ping are not; a
      binary frame and a pong, which have the bit of 2, are taken like a text. */
  lemma Opcodes(opcode: nat)
    requires opcode < 16
    ensures var head := 0x80 + opcode;
            && (head == CLOSE <==> opcode == 0x8)
            && (Accepted(head) <==> opcode == 0x1 || opcode in {0x2, 0x3, 0x6, 0x7, 0xA, 0xB, 0xE, 0xF})
  {}

  /** The frames found lie in the packet, and there is room for their messages. */
  ghost predicate Receivable(packet: seq<Byte>, frames: seq<Found>, room: nat, unmask: bool) {
    && |packet| < TWO31 && Inside(frames, |packet|) && Keyed(frames)
    && |FoundMessages(packet, frames, |frames|, unmask)| <= room
  }

  /** The frames found in a packet whose length is cast to `int`. */
  function Frames(packet: seq<Byte>, length: nat): seq<Found> {
    Scan(packet, 0, ToInt32(length), MAX_FRAMES)
  }

  /** Where the payload of the last of the first `x` frames ends. */
  function EndOf(frames: seq<Found>, x: nat): int
    requires x <= |frames|
  {
    if x == 0 then 0 else frames[x - 1].start + frames[x - 1].length
  }

  lemma EndIs(frames: seq<Found>, x: nat)
    requires x < |frames|
    ensures EndOf(frames, x + 1) == frames[x].start + frames[x].length
  {}

  /** Frames before `x` are copied, and behind them the packet is as it was. */
  ghost predicate Copying(packet0: seq<Byte>, packet: seq<Byte>, done: seq<Byte>, frames: seq<Found>, x: nat,
                          unmask: bool) {
    && Inside(frames, |packet0|) && Keyed(frames) && |packet| == |packet0|
    && x <= |frames| && 0 <= EndOf(frames, x) <= |packet|
    && packet[EndOf(frames, x)..] == packet0[EndOf(frames, x)..]
    && done == FoundMessages(packet0, frames, x, unmask)
  }

  lemma FoundNext(packet: seq<Byte>, frames: seq<Found>, x: nat, unmask: bool)
    requires x < |frames| && Inside(frames, |packet|) && Keyed(frames)
    ensures FoundMessages(packet, frames, x + 1, unmask)
            == FoundMessages(packet, frames, x, unmask) + FoundText(packet, frames[x], unmask) + [0]
  {
    hide FoundText;
  }

  lemma FoundSize(packet: seq<Byte>, frames: seq<Found>, x: nat, unmask: bool)
    requires x < |frames| && Inside(frames, |packet|) && Keyed(frames)
    ensures |FoundMessages(packet, frames, x + 1, unmask)|
            == |FoundMessages(packet, frames, x, unmask)| + frames[x].length + 1
  {
    FoundNext(packet, frames, x, unmask);
    hide FoundText;
  }

  lemma {:induction false} MessagesGrow(packet: seq<Byte>, frames: seq<Found>, x: nat, k: nat, unmask: bool)
    requires x < k <= |frames| && Inside(frames, |packet|) && Keyed(frames)
    ensures |FoundMessages(packet, frames, x, unmask)| + frames[x].length < |FoundMessages(packet, frames, k, unmask)|
    decreases k
  {
    hide *;
    FoundSize(packet, frames, k - 1, unmask);
    if x + 1 == k {
    } else {
      MessagesGrow(packet, frames, x, k - 1, unmask);
    }
  }

  lemma EndBefore(frames: seq<Found>, x: nat)
    requires Ordered(frames) && x < |frames|
    ensures x > 0 ==> EndOf(frames, x) <= frames[x].start
    ensures x == 0 ==> EndOf(frames, x) == 0
  {
    if x > 0 { assert frames[x - 1].start + frames[x - 1].length <= frames[x - 1 + 1].start; }
  }

  lemma SameStretch(a: seq<Byte>, b: seq<Byte>, from: nat, start: nat, n: nat)
    requires |a| == |b| && from <= start && start + n <= |a| && a[from..] == b[from..]
    ensures a[start..start + n] == b[start..start + n]
  {
    var s, t := a[start..start + n], b[start..start + n];
    forall k | 0 <= k < n ensures s[k] == t[k] {
      assert a[from..][start - from + k] == b[from..][start - from + k];
    }
  }

  /** The next frame's payload is where it was found, and there is room for it. */
  lemma CopyingNext(packet0: seq<Byte>, packet: seq<Byte>, done: seq<Byte>, frames: seq<Found>, x: nat, unmask: bool,
                    room: nat)
    requires Copying(packet0, packet, done, frames, x, unmask) && x < |frames| && Ordered(frames)
    requires Receivable(packet0, frames, room, unmask)
    ensures var f := frames[x];
            && |f.key| == 4 && 0 <= f.start && f.start + f.length <= |packet| && |done| + f.length < room
            && packet[f.start..f.start + f.length] == packet0[f.start..f.start + f.length]
  {
    hide FoundMessages, Ordered, EndOf;
    MessagesGrow(packet0, frames, x, |frames|, unmask);
    EndBefore(frames, x);
    SameStretch(packet, packet0, EndOf(frames, x), frames[x].start, frames[x].length);
  }

  lemma SameTail(a: seq<Byte>, b: seq<Byte>, from: nat, k: nat)
    requires |a| == |b| && from <= k <= |a| && a[from..] == b[from..]
    ensures a[k..] == b[k..]
  {
    assert a[k..] == a[from..][k - from..] && b[k..] == b[from..][k - from..];
  }

  lemma CopyingStep(packet0: seq<Byte>, packet: seq<Byte>, packet': seq<Byte>, done: seq<Byte>, frames: seq<Found>,
                    x: nat, unmask: bool)
    requires Copying(packet0, packet, done, frames, x, unmask) && x < |frames| && Ordered(frames)
    requires var e := EndOf(frames, x + 1);
             |packet| == |packet'| && 0 <= e <= |packet| && packet[e..] == packet'[e..]
    requires var f := frames[x];
             && |f.key| == 4 && 0 <= f.start && f.start + f.length <= |packet|
             && packet[f.start..f.start + f.length] == packet0[f.start..f.start + f.length]
    ensures var f := frames[x];
            var data := packet[f.start..f.start + f.length];
            var text := if unmask then Masked(data, f.key) else data;
            Copying(packet0, packet', done + text + [0], frames, x + 1, unmask)
  {
    hide FoundMessages, Inside, Keyed, Ordered, Masked, EndOf;
    EndIs(frames, x);
    EndBefore(frames, x);
    FoundNext(packet0, frames, x, unmask);
    SameTail(packet, packet0, EndOf(frames, x), EndOf(frames, x + 1));
  }

  /** One frame. */
  method CopyFrame(packet: array<Byte>, frames: seq<Found>, x: nat, msg: array<Byte>, unmask: bool, pos0: nat,
                   ghost packet0: seq<Byte>)
    returns (pos: nat)
    requires packet != msg && x < |frames| && Receivable(packet0, frames, msg.Length, unmask) && Ordered(frames)
    requires pos0 <= msg.Length && Copying(packet0, packet[..], msg[..pos0], frames, x, unmask)
    modifies packet, msg
    ensures pos <= msg.Length && Copying(packet0, packet[..], msg[..pos], frames, x + 1, unmask)
  {
    hide *;
    EndIs(frames, x);
    var f := frames[x];
    ghost var before, done := packet[..], msg[..pos0];
    CopyingNext(packet0, before, done, frames, x, unmask, msg.Length);
    assert packet[f.start..f.start + f.length] == before[f.start..f.start + f.length];
    CopyPayload(packet, f.start, f.length, f.key, unmask, msg, pos0);
    assert packet[..][f.start + f.length..] == packet[f.start + f.length..] == before[f.start + f.length..];
    pos := pos0 + f.length + 1;
    CopyingStep(packet0, before, packet[..], done, frames, x, unmask);
  }

  lemma CopyingStarts(packet0: seq<Byte>, frames: seq<Found>, unmask: bool)
    requires Inside(frames, |packet0|) && Keyed(frames)
    ensures Copying(packet0, packet0, [], frames, 0, unmask)
  {}

  lemma CopyingEnds(packet0: seq<Byte>, packet: seq<Byte>, done: seq<Byte>, frames: seq<Found>, unmask: bool)
    requires Copying(packet0, packet, done, frames, |frames|, unmask)
    ensures Inside(frames, |packet0|) && Keyed(frames)
    ensures done == FoundMessages(packet0, frames, |frames|, unmask)
  {}

  /** The loop of `websocket_recv` over the frames found. */
  method CopyAll(packet: array<Byte>, frames: seq<Found>, msg: array<Byte>, unmask: bool)
    requires packet != msg && Receivable(packet[..], frames, msg.Length, unmask) && Ordered(frames)
    modifies packet, msg
    ensures var text := FoundMessages(old(packet[..]), frames, |frames|, unmask);
            |text| <= msg.Length && msg[..|text|] == text
  {
    var x, pos := 0, 0;
    ghost var packet0 := packet[..];
    hide *;
    CopyingStarts(packet0, frames, unmask);
    assert msg[..0] == [];
    while x < |frames|
      invariant 0 <= x <= |frames| && 0 <= pos <= msg.Length
      invariant Copying(packet0, packet[..], msg[..pos], frames, x, unmask)
    {
      pos := CopyFrame(packet, frames, x, msg, unmask, pos, packet0);
      x := x + 1;
    }
    CopyingEnds(packet0, packet[..], msg[..pos], frames, unmask);
    assert |msg[..pos]| == pos;
  }

  /** `websocket_recv`: the number of frames, or -2 for a close frame, -1 for another opcode without the
      bit of 2 and for five frames or more. The source does not check that the frames found lie in the
      packet and that the message buffer has room for them: the caller has to. */
  method Recv(packet: array<Byte>, length: nat, msg: array<Byte>, unmask: bool) returns (r: int)
    requires packet != msg && packet.Length > 0
    requires Accepted(packet[0]) && |Frames(packet[..], length)| < MAX_FRAMES ==>
               Receivable(packet[..], Frames(packet[..], length), msg.Length, unmask)
    modifies packet, msg
    ensures var frames := Frames(old(packet[..]), length);
            r == if old(packet[0]) == 0x88 then -2
                 else if !Accepted(old(packet[0])) || |frames| >= 5 then -1
                 else |frames|
    ensures r >= 0 ==>
              var frames := Frames(old(packet[..]), length);
              && Receivable(old(packet[..]), frames, msg.Length, unmask)
              && var text := FoundMessages(old(packet[..]), frames, |frames|, unmask);
              msg[..|text|] == text
  {
    var opcode := packet[0];
    if opcode != TEXT {
      if opcode == CLOSE { return -2; }
      if opcode / 2 % 2 == 0 { return -1; }
    }
    var frames := ExtractFrames(packet[..], ToInt32(length));
    ScanKeyed(packet[..], 0, ToInt32(length), MAX_FRAMES);
    var count := |frames|;
    if count == 0 || count >= MAX_FRAMES { return -1; }
    ScanOrdered(packet[..], 0, ToInt32(length), MAX_FRAMES);
    hide Scan, Inside, Keyed, Ordered, FoundMessages;
    CopyAll(packet, frames, msg, unmask);
    r := count;
  }

  lemma StreamCount(wire: seq<Byte>, fs: seq<Frame>)
    requires fs != [] && wire == Stream(fs) && |wire| < TWO31
    requires forall i :: 0 <= i < |fs| - 1 && i < 4 ==> |fs[i].payload| <= 125
    ensures |Frames(wire, |wire|)| == Min(5, |fs|)
    ensures |fs| <= 4 ==>
              var frames := Frames(wire, |wire|);
              && Inside(frames, |wire|) && Keyed(frames)
              && FoundMessages(wire, frames, |frames|, true) == Messages(fs, true)
  {
    assert wire[0..|wire|] == wire;
    assert ShortBefore(fs, MAX_FRAMES);
    Int32Same(|wire|);
    hide Scan, Stream, Messages, FoundMessages, Inside, Keyed;
    ScanStream(wire, 0, fs, MAX_FRAMES);
    if |fs| <= 4 { StreamFound(wire, fs, MAX_FRAMES, true); }
  }

  lemma StreamHead(fs: seq<Frame>)
    requires fs != []
    ensures Stream(fs) != [] && Stream(fs)[0] == fs[0].head
  {
    WireIs(fs[0]);
    hide Wire;
    StreamCons(fs);
  }

  /** A text message, or several in one packet: up to four short frames are received in order, a fifth makes the
      packet be refused. */
  method RecvStream(packet: array<Byte>, msg: array<Byte>, ghost fs: seq<Frame>) returns (r: int)
    requires packet != msg && fs != [] && packet[..] == Stream(fs) && packet.Length < TWO31 && fs[0].head == 0x81
    requires forall i :: 0 <= i < |fs| - 1 && i < 4 ==> |fs[i].payload| <= 125
    requires |fs| <= 4 ==> |Messages(fs, true)| <= msg.Length
    modifies packet, msg
    ensures r == if |fs| <= 4 then |fs| else -1
    ensures |fs| <= 4 ==> var text := Messages(fs, true); msg[..|text|] == text
  {
    hide Frames, Messages, FoundMessages, Stream, Inside, Keyed;
    ghost var wire := packet[..];
    StreamCount(wire, fs);
    StreamHead(fs);
    assert packet[0] == wire[0];
    r := Recv(packet, packet.Length, msg, true);
  }

  const KEY: seq<Byte> := [0xaa, 0xaa, 0xaa, 0xaa]

  /** The size of the array on the stack that a message is built in; longer payloads get memory for the
      payload and 256 bytes more. */
  const LOCAL: nat := 0x10_0000

  function Room(n: nat): nat { if n >= LOCAL then n + 256 else LOCAL }

  /** What becomes of a message: nothing is sent, or these bytes, or it is written past the end of its memory
      or with an index that runs over. */
  datatype Sent = Nothing | Written(bytes: seq<Byte>) | Overrun

  /** The frame of a payload of `n` bytes is written inside its memory and with indices an `int` holds. */
  predicate Fits(n: nat) {
    DataOffset(n) + n <= Room(n) && DataOffset(n) + n <= TWO31
  }

  /** So it is for all lengths up to 2^31 - 14 but thirteen, for which the header no longer goes into the array
      on the stack. */
  lemma FitsIff(n: nat)
    ensures Fits(n) <==> n <= 1048562 || 1048576 <= n <= 2147483634
    ensures n < 1048576 && !Fits(n) ==> 0 < DataOffset(n) + n - Room(n) <= 13
  {}

  lemma EightDigits(n: nat)
    ensures [255, Digit(n, 7), Digit(n, 6), Digit(n, 5), Digit(n, 4),
             Digit(n, 3), Digit(n, 2), Digit(n, 1), Digit(n, 0)]
            == [255] + NumberBytes(n, 8)
  {
    forall i | 0 <= i < 8 ensures NumberBytes(n, 8)[i] == Digit(n, 7 - i) { NumberDigits(n, 8, i); }
    hide NumberBytes, Digit;
  }

  /** The header: first byte, length in its form and key. */
  method WriteHeader(message: array<Byte>, n: nat) returns (start: nat)
    requires message.Length >= 14
    modifies message
    ensures start == DataOffset(n) && message[..start] == [TEXT] + LengthField(n) + KEY
  {
    message[0] := TEXT;
    if n <= 125 {
      message[1] := n + 128;
      start := 2;
    } else if n <= 65535 {
      NumberDigits(n, 2, 0);
      NumberDigits(n, 2, 1);
      message[1] := 254;
      message[2], message[3] := Digit(n, 1), Digit(n, 0);
      start := 4;
    } else {
      EightDigits(n);
      message[1] := 255;
      message[2], message[3], message[4], message[5] := Digit(n, 7), Digit(n, 6), Digit(n, 5), Digit(n, 4);
      message[6], message[7], message[8], message[9] := Digit(n, 3), Digit(n, 2), Digit(n, 1), Digit(n, 0);
      start := 10;
    }
    hide NumberBytes, Digit;
    assert message[..start] == [TEXT] + LengthField(n);
    message[start], message[start + 1], message[start + 2], message[start + 3] := KEY[0], KEY[1], KEY[2], KEY[3];
    start := start + 4;
  }

  /** `websocket_send` on a client's connection. A 64-bit payload length whose low 32 bits are no positive
      `int` sends nothing. */
  method Send(data: seq<Byte>) returns (r: Sent)
    requires |data| < 0x1_0000_0000_0000_0000
    ensures r.Nothing? <==> ToInt32(|data|) <= 0
    ensures r.Overrun? <==> ToInt32(|data|) > 0 && !Fits(|data|)
    ensures r.Written? ==> r.bytes == Wire(FrameData(0x81, [0xaa, 0xaa, 0xaa, 0xaa], data))
  {
    hide LengthField, XorByte, Masked, ToInt32;
    var n := |data|;
    if ToInt32(n) <= 0 { return Nothing; }
    var message := new Byte[Room(n)](_ => 0);
    var start := WriteHeader(message, n);
    ghost var header := message[..start];
    var boff := 0;
    while boff < n
      invariant 0 <= boff <= n && (boff > 0 ==> start + boff <= message.Length && start + boff <= TWO31)
      invariant message[..start] == header
      invariant forall k :: 0 <= k < boff ==> message[start + k] == Masked(data, KEY)[k]
    {
      if start + boff >= message.Length || start + boff >= TWO31 { return Overrun; }
      MaskedAt(data, KEY, boff);
      message[start + boff] := XorByte(data[boff], KEY[boff % 4]);
      boff := boff + 1;
    }
    assert message[..start + n] == header + Masked(data, KEY);
    r := Written(message[..start + n]);
  }

  lemma OneFrame(f: Frame)
    ensures Stream([f]) == Wire(f) && Messages([f], true) == f.payload + [0]
  {
    assert [f][1..] == [];
    assert Wire(f) + [] == Wire(f) && f.payload + [0] + [] == f.payload + [0];
  }

  /** One frame received. */
  method RecvFrame(packet: array<Byte>, msg: array<Byte>, ghost f: Frame) returns (r: int)
    requires packet != msg && packet[..] == Wire(f) && packet.Length < TWO31 && f.head == 0x81
    requires msg.Length == |f.payload| + 1
    modifies packet, msg
    ensures r == 1 && msg[..] == f.payload + [0]
  {
    OneFrame(f);
    hide *;
    r := RecvStream(packet, msg, [f]);
    assert msg[..|f.payload| + 1] == msg[..];
  }

  /** What is sent is received, exactly for the lengths for which it is written inside its memory and the
      frame has a length an `int` can hold. */
  method SendThenRecv(data: seq<Byte>) returns (ok: bool, r: int, msg: array<Byte>)
    requires 0 < |data| < 0x1_0000_0000_0000_0000
    ensures ok <==> |data| <= 1048562 || 1048576 <= |data| < 2147483634
    ensures ok ==> r == 1 && msg[..] == data + [0]
  {
    FitsIff(|data|);
    if |data| < TWO31 { Int32Same(|data|); }
    ghost var f := FrameData(0x81, [0xaa, 0xaa, 0xaa, 0xaa], data);
    hide *;
    msg := new Byte[|data| + 1](_ => 0);
    ok, r := false, 0;
    var s := Send(data);
    if s.Written? && |s.bytes| < TWO31 {
      var packet := new Byte[|s.bytes|](i requires 0 <= i < |s.bytes| => s.bytes[i]);
      assert packet[..] == s.bytes;
      r := RecvFrame(packet, msg, f);
      ok := true;
    }
  }
}
