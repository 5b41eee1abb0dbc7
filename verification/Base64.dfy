/** The encoding of section 4 of RFC 4648 as src/external/base64.c has it. */
module Base64Spec {
  import opened Words

  type Sextet = n: int | 0 <= n < 64

  datatype Decoded = Invalid | Bytes(bytes: seq<Byte>)

  const PAD: Byte := 61
  const NONE := 0x80

  /** `base64_table` */
  function Letter(v: Sextet): Byte {
    if v < 26 then 65 + v
    else if v < 52 then 97 + (v - 26)
    else if v < 62 then 48 + (v - 52)
    else if v == 62 then 43 else 47
  }

  /** `base64_decode_table`: the value of a letter, 0 for '=', `NONE` for every other byte. */
  function Value(c: Byte): Byte {
    if 65 <= c <= 90 then c - 65
    else if 97 <= c <= 122 then c - 97 + 26
    else if 48 <= c <= 57 then c - 48 + 52
    else if c == 43 then 62
    else if c == 47 then 63
    else if c == PAD then 0
    else NONE
  }

  /** Table 1 of RFC 4648: A to Z, a to z, 0 to 9, '+' and '/'. */
  lemma LettersAre(v: Sextet)
    ensures Letter(0) as char == 'A' && Letter(25) as char == 'Z' && Letter(26) as char == 'a'
    ensures Letter(51) as char == 'z' && Letter(52) as char == '0' && Letter(61) as char == '9'
    ensures Letter(62) as char == '+' && Letter(63) as char == '/' && PAD as char == '='
    ensures v < 61 && v != 25 && v != 51 ==> Letter(v + 1) == Letter(v) + 1
  {}

  /** A byte is the letter of its value, or '=', or no letter at all. */
  lemma ValuesAre(c: Byte)
    ensures if Value(c) == NONE then c as char != '=' && forall v: Sextet :: Letter(v) != c
            else if c as char == '=' then Value(c) == 0
            else Value(c) < 64 && Letter(Value(c)) == c
  {}

  lemma LetterValue(v: Sextet)
    ensures Value(Letter(v)) == v && Letter(v) != PAD
  {}

  /** Three bytes as four letters, and the one or two bytes at the end of a text. */
  function Group(a: Byte, b: Byte, c: Byte): (s: seq<Byte>)
    ensures |s| == 4
  {
    [Letter(a / 4), Letter(a % 4 * 16 + b / 16), Letter(b % 16 * 4 + c / 64), Letter(c % 64)]
  }

  function LastTwo(a: Byte, b: Byte): (s: seq<Byte>)
    ensures |s| == 4
  {
    [Letter(a / 4), Letter(a % 4 * 16 + b / 16), Letter(b % 16 * 4), PAD]
  }

  function LastOne(a: Byte): (s: seq<Byte>)
    ensures |s| == 4
  {
    [Letter(a / 4), Letter(a % 4 * 16), PAD, PAD]
  }

  function Encoded(x: seq<Byte>): seq<Byte> {
    if x == [] then []
    else if |x| == 1 then LastOne(x[0])
    else if |x| == 2 then LastTwo(x[0], x[1])
    else Group(x[0], x[1], x[2]) + Encoded(x[3..])
  }

  /** The letters and '=' of a text. */
  function Known(s: seq<Byte>): (f: seq<Byte>)
    ensures forall i :: 0 <= i < |f| ==> Value(f[i]) != NONE
  {
    if s == [] then [] else (if Value(s[0]) == NONE then [] else [s[0]]) + Known(s[1..])
  }

  function Pads(q: seq<Byte>): nat {
    if q == [] then 0 else (if q[0] == PAD then 1 else 0) + Pads(q[1..])
  }

  function Join(u: Byte, v: Byte, w: Byte, x: Byte): (t: seq<Byte>)
    ensures |t| == 3
  {
    [(u * 4 + v / 16) % 256, (v * 16 + w / 4) % 256, (w * 64 + x) % 256]
  }

  /** The three bytes of four values, each cut to a byte. */
  function Triple(q: seq<Byte>): (t: seq<Byte>)
    requires |q| == 4
    ensures |t| == 3
  {
    Join(Value(q[0]), Value(q[1]), Value(q[2]), Value(q[3]))
  }

  function Prepend(a: seq<Byte>, d: Decoded): Decoded {
    if d.Invalid? then Invalid else Bytes(a + d.bytes)
  }

  /** Group by group, up to the first one with a '=' in it: that one gives as many bytes less as it has
      '=', and with more than two the whole text is invalid. */
  function DecodedGroups(f: seq<Byte>): Decoded
    requires |f| % 4 == 0
  {
    if f == [] then Bytes([])
    else
      var q := f[..4];
      var p := Pads(q);
      if p == 0 then Prepend(Triple(q), DecodedGroups(f[4..]))
      else if p <= 2 then Bytes(Triple(q)[..3 - p])
      else Invalid
  }

  /** What a text decodes to. */
  function Decode(s: seq<Byte>): Decoded {
    var f := Known(s);
    if f == [] || |f| % 4 != 0 then Invalid else DecodedGroups(f)
  }

  predicate Valid(s: seq<Byte>) {
    forall i :: 0 <= i < |s| ==> Value(s[i]) != NONE
  }

  // ---- round trip ----

  lemma {:induction false} KnownAll(s: seq<Byte>)
    requires Valid(s)
    ensures Known(s) == s
  {
    if s == [] {
    } else {
      KnownAll(s[1..]);
    }
  }

  lemma {:induction false} KnownConcat(a: seq<Byte>, b: seq<Byte>)
    ensures Known(a + b) == Known(a) + Known(b)
  {
    if a == [] {
      assert a + b == b;
    } else {
      assert (a + b)[1..] == a[1..] + b;
      KnownConcat(a[1..], b);
    }
  }

  lemma PadsOfFour(q: seq<Byte>)
    requires |q| == 4
    ensures Pads(q) == (if q[0] == PAD then 1 else 0) + (if q[1] == PAD then 1 else 0)
                       + (if q[2] == PAD then 1 else 0) + (if q[3] == PAD then 1 else 0)
  {
    var r := q[1..];
    var t := r[1..];
    var u := t[1..];
    assert r[0] == q[1] && t[0] == q[2] && u[0] == q[3] && u[1..] == [];
    assert Pads(u) == (if u[0] == PAD then 1 else 0) + Pads(u[1..]);
    assert Pads(t) == (if t[0] == PAD then 1 else 0) + Pads(u);
    assert Pads(r) == (if r[0] == PAD then 1 else 0) + Pads(t);
  }

  /** Six bits at a time, and back. */
  lemma Regroup(a: Byte, b: Byte, c: Byte)
    ensures Join(a / 4, a % 4 * 16 + b / 16, b % 16 * 4 + c / 64, c % 64) == [a, b, c]
  {
    assert (a % 4 * 16 + b / 16) / 16 == a % 4;
    assert (b % 16 * 4 + c / 64) / 4 == b % 16;
    assert (a % 4 * 16 + b / 16) * 16 == a % 4 * 256 + b / 16 * 16;
    assert (b % 16 * 4 + c / 64) * 64 == b % 16 * 256 + c / 64 * 64;
  }

  lemma GroupValues(a: Byte, b: Byte, c: Byte)
    ensures var q := Group(a, b, c);
            Triple(q) == [a, b, c] && Pads(q) == 0 && Valid(q)
  {
    var q := Group(a, b, c);
    LetterValue(a / 4);
    LetterValue(a % 4 * 16 + b / 16);
    LetterValue(b % 16 * 4 + c / 64);
    LetterValue(c % 64);
    Regroup(a, b, c);
    PadsOfFour(q);
    hide Letter, Value, Pads, Join;
  }

  lemma LastTwoValues(a: Byte, b: Byte)
    ensures var q := LastTwo(a, b);
            Triple(q)[..2] == [a, b] && Pads(q) == 1 && Valid(q)
  {
    var q := LastTwo(a, b);
    LetterValue(a / 4);
    LetterValue(a % 4 * 16 + b / 16);
    LetterValue(b % 16 * 4);
    Regroup(a, b, 0);
    assert 0 / 64 == 0 && 0 % 64 == 0;
    PadsOfFour(q);
    assert Value(PAD) == 0;
    hide Letter, Value, Pads, Join;
  }

  lemma LastOneValues(a: Byte)
    ensures var q := LastOne(a);
            Triple(q)[..1] == [a] && Pads(q) == 2 && Valid(q)
  {
    var q := LastOne(a);
    LetterValue(a / 4);
    LetterValue(a % 4 * 16);
    Regroup(a, 0, 0);
    assert 0 / 64 == 0 && 0 % 64 == 0 && 0 / 16 == 0;
    PadsOfFour(q);
    assert Value(PAD) == 0;
    hide Letter, Value, Pads, Join;
  }

  lemma {:induction false} EncodedForm(x: seq<Byte>)
    ensures |Encoded(x)| == (|x| + 2) / 3 * 4 && Valid(Encoded(x))
  {
    hide Letter;
    if |x| >= 3 {
      EncodedForm(x[3..]);
      var s := Encoded(x);
      forall i | 0 <= i < |s| ensures Value(s[i]) != NONE {
        if i < 4 {
          GroupValues(x[0], x[1], x[2]);
        } else {
          assert s[i] == Encoded(x[3..])[i - 4];
        }
      }
    } else if |x| == 2 {
      LastTwoValues(x[0], x[1]);
    } else if |x| == 1 {
      LastOneValues(x[0]);
    }
  }

  lemma {:induction false} GroupsRoundTrip(x: seq<Byte>)
    ensures |Encoded(x)| % 4 == 0 && DecodedGroups(Encoded(x)) == Bytes(x)
  {
    EncodedForm(x);
    var s := Encoded(x);
    hide Group, LastTwo, LastOne, Triple, Pads;
    if |x| >= 3 {
      GroupValues(x[0], x[1], x[2]);
      GroupsRoundTrip(x[3..]);
      assert s[..4] == Group(x[0], x[1], x[2]) && s[4..] == Encoded(x[3..]);
      assert x == [x[0], x[1], x[2]] + x[3..];
    } else if |x| == 2 {
      LastTwoValues(x[0], x[1]);
      assert s[..4] == s && x == [x[0], x[1]];
    } else if |x| == 1 {
      LastOneValues(x[0]);
      assert s[..4] == s && x == [x[0]];
    }
  }

  /** Decoding undoes encoding. Only the empty text does not decode. */
  lemma RoundTrip(x: seq<Byte>)
    ensures Decode(Encoded(x)) == if x == [] then Invalid else Bytes(x)
  {
    GroupsRoundTrip(x);
    EncodedForm(x);
    KnownAll(Encoded(x));
  }

  /** Tests of section 10 of RFC 4648, as bytes: "foobar" is "Zm9vYmFy", "fooba" "Zm9vYmE=" and "foob" "Zm9vYg==". */
  lemma EncodesFoobar()
    ensures Encoded([102, 111, 111, 98, 97, 114]) == [90, 109, 57, 118, 89, 109, 70, 121]
    ensures Encoded([102, 111, 111, 98, 97]) == [90, 109, 57, 118, 89, 109, 69, 61]
    ensures Encoded([102, 111, 111, 98]) == [90, 109, 57, 118, 89, 103, 61, 61]
  {
    assert [102, 111, 111, 98, 97, 114][3..] == [98, 97, 114];
    assert [102, 111, 111, 98, 97][3..] == [98, 97] && [102, 111, 111, 98][3..] == [98];
    assert Encoded([98, 97, 114]) == Group(98, 97, 114) + [];
  }

  lemma {:induction false} NoneKnown(junk: seq<Byte>)
    requires forall i :: 0 <= i < |junk| ==> Value(junk[i]) == NONE
    ensures Known(junk) == []
  {
    if junk == [] {
    } else {
      NoneKnown(junk[1..]);
    }
  }

  /** Bytes that are neither letters nor '=' may stand anywhere in a text. */
  lemma JunkIgnored(a: seq<Byte>, junk: seq<Byte>, b: seq<Byte>)
    requires forall i :: 0 <= i < |junk| ==> Value(junk[i]) == NONE
    ensures Decode(a + junk + b) == Decode(a + b)
  {
    KnownConcat(a + junk, b);
    KnownConcat(a, junk);
    KnownConcat(a, b);
    NoneKnown(junk);
    assert Known(a) + [] == Known(a);
  }

  /** Any text with the letters of an encoding in order decodes to what was encoded. */
  lemma RoundTripWithJunk(x: seq<Byte>, s: seq<Byte>)
    requires Known(s) == Encoded(x) && x != []
    ensures Decode(s) == Bytes(x)
  {
    GroupsRoundTrip(x);
    EncodedForm(x);
  }

  // ---- the length ----

  /** `base64_encoded_len`: the product wraps at 64 bits, and the mask, an `unsigned`, has 32. */
  function EncodedLen(n: nat): nat {
    ((4 * n % 0x1_0000_0000_0000_0000 / 3 + 3) % 0x1_0000_0000) / 4 * 4
  }

  lemma LenIs(n: nat)
    requires n < 0x1_0000_0000_0000_0000
    ensures EncodedLen(n) < 0x1_0000_0000
    ensures (n + 2) / 3 * 4 < 0x1_0000_0000 ==> EncodedLen(n) == (n + 2) / 3 * 4
  {
    if (n + 2) / 3 * 4 < 0x1_0000_0000 {
      var q, r := n / 3, n % 3;
      assert (n + 2) / 3 == if r == 0 then q else q + 1;
      assert 4 * n / 3 == 4 * q + r;
      assert 4 * n % 0x1_0000_0000_0000_0000 == 4 * n;
      assert (4 * n / 3 + 3) / 4 == (n + 2) / 3;
    }
  }

  /** It is the length of the encoding exactly when that fits 32 bits. */
  lemma EncodedLenIs(x: seq<Byte>)
    requires |x| < 0x1_0000_0000_0000_0000
    ensures EncodedLen(|x|) == |Encoded(x)| <==> |Encoded(x)| < 0x1_0000_0000
  {
    EncodedForm(x);
    LenIs(|x|);
  }

  /** The overflow test of `base64_encode` lets through exactly the inputs whose encoding fits 32 bits. */
  lemma OverflowTest(n: nat)
    requires n < 0x1_0000_0000_0000_0000
    ensures EncodedLen(n) + 1 >= n <==> (n + 2) / 3 * 4 < 0x1_0000_0000
  {
    LenIs(n);
  }
}

/** `base64_validate`, `base64_encode` and `base64_decode`. */
module Base64 {
  import opened Base64Spec
  import opened Words

  /** `base64_validate` */
  method Validate(src: seq<Byte>) returns (ok: bool)
    ensures ok <==> Base64Spec.Valid(src)
  {
    var i := 0;
    while i < |src|
      invariant 0 <= i <= |src| && forall j :: 0 <= j < i ==> Value(src[j]) != NONE
    {
      if Value(src[i]) == NONE { return false; }
      i := i + 1;
    }
    return true;
  }

  /** Store four letters. */
  method Put(out: array<Byte>, pos: nat, letters: seq<Byte>)
    requires |letters| == 4 && pos + 4 <= out.Length
    modifies out
    ensures out[..pos + 4] == old(out[..pos]) + letters
  {
    out[pos] := letters[0];
    out[pos + 1] := letters[1];
    out[pos + 2] := letters[2];
    out[pos + 3] := letters[3];
  }

  /** The text up to byte `i` is encoded in `done`. */
  ghost predicate Encoding(src: seq<Byte>, i: nat, done: seq<Byte>) {
    i <= |src| && done + Encoded(src[i..]) == Encoded(src)
  }

  lemma EncodingStep(src: seq<Byte>, i: nat, done: seq<Byte>)
    requires Encoding(src, i, done) && i + 3 <= |src|
    ensures |done| + 4 <= |Encoded(src)| && Encoding(src, i + 3, done + Group(src[i], src[i + 1], src[i + 2]))
  {
    var x := src[i..];
    assert x[3..] == src[i + 3..];
    var g := Group(x[0], x[1], x[2]);
    assert done + (g + Encoded(x[3..])) == done + g + Encoded(x[3..]);
  }

  lemma EncodingEnds(src: seq<Byte>, i: nat, done: seq<Byte>)
    requires Encoding(src, i, done) && |src| < i + 3
    ensures i == |src| ==> done == Encoded(src)
    ensures i + 1 == |src| ==> done + LastOne(src[i]) == Encoded(src)
    ensures i + 2 == |src| ==> done + LastTwo(src[i], src[i + 1]) == Encoded(src)
  {
    if i == |src| { assert done + [] == done; }
    hide LastOne, LastTwo;
  }

  /** `base64_encode`: nothing is written when the length would not fit 32 bits. */
  method Encode(src: seq<Byte>, out: array<Byte>) returns (n: nat)
    requires |src| < 0x1_0000_0000_0000_0000
    requires |Encoded(src)| < 0x1_0000_0000 ==> out.Length > |Encoded(src)|
    modifies out
    ensures |Encoded(src)| < 0x1_0000_0000 ==> n == |Encoded(src)| && out[..n] == Encoded(src) && out[n] == 0
    ensures |Encoded(src)| >= 0x1_0000_0000 ==> n == 0 && out[..] == old(out[..])
  {
    OverflowTest(|src|);
    EncodedForm(src);
    if EncodedLen(|src|) + 1 < |src| { return 0; }
    var pos, i := 0, 0;
    assert Encoding(src, 0, out[..0]) by { assert src[0..] == src && [] + Encoded(src) == Encoded(src); }
    hide EncodedLen, Encoding, Encoded;
    while |src| - i >= 3
      invariant 0 <= i <= |src| && pos <= out.Length
      invariant Encoding(src, i, out[..pos])
    {
      EncodingStep(src, i, out[..pos]);
      Put(out, pos, Group(src[i], src[i + 1], src[i + 2]));
      pos := pos + 4;
      i := i + 3;
    }
    EncodingEnds(src, i, out[..pos]);
    if i < |src| {
      if |src| - i == 1 {
        Put(out, pos, LastOne(src[i]));
      } else {
        Put(out, pos, LastTwo(src[i], src[i + 1]));
      }
      pos := pos + 4;
    }
    ghost var done := out[..pos];
    out[pos] := 0;
    assert out[..pos] == done;
    n := pos;
  }

  /** The first loop of `base64_decode`. */
  method Count(src: seq<Byte>) returns (count: nat)
    requires |src| < 0x8000_0000
    ensures count == |Known(src)|
  {
    count := 0;
    var i := 0;
    assert src[0..] == src;
    while i < |src|
      invariant 0 <= i <= |src| && count + |Known(src[i..])| == |Known(src)|
    {
      assert src[i..][0] == src[i] && src[i..][1..] == src[i + 1..];
      if Value(src[i]) != NONE { count := count + 1; }
      i := i + 1;
    }
  }

  lemma KnownStep(src: seq<Byte>, i: nat)
    requires i < |src|
    ensures Known(src[i..]) == (if Value(src[i]) == NONE then [] else [src[i]]) + Known(src[i + 1..])
  {
    assert src[i..][0] == src[i] && src[i..][1..] == src[i + 1..];
  }

  lemma {:induction false} PadsAppend(q: seq<Byte>, c: Byte)
    ensures Pads(q + [c]) == Pads(q) + (if c == PAD then 1 else 0)
  {
    if q == [] {
      assert q + [c] == [c] && [c][1..] == [];
    } else {
      assert (q + [c])[1..] == q[1..] + [c];
      PadsAppend(q[1..], c);
    }
  }

  /** What is still to decode: the letters of a group that is begun, and the rest of the text. */
  ghost predicate Decoding(all: seq<Byte>, done: seq<Byte>, q: seq<Byte>, rest: seq<Byte>) {
    && |all| % 4 == 0 && |q + rest| % 4 == 0
    && DecodedGroups(all) == Prepend(done, DecodedGroups(q + rest))
    && |done| * 4 + |q + rest| * 3 == |all| * 3
  }

  lemma DecodingStarts(all: seq<Byte>)
    requires |all| % 4 == 0
    ensures Decoding(all, [], [], all)
  {
    assert [] + all == all;
    var d := DecodedGroups(all);
    if d.Bytes? { assert [] + d.bytes == d.bytes; }
  }

  lemma FourLess(n: nat)
    requires n >= 4
    ensures (n - 4) % 4 == n % 4
  {}

  /** The first group of a text. */
  lemma FirstGroup(q: seq<Byte>, rest: seq<Byte>)
    requires |q| == 4 && |q + rest| % 4 == 0
    ensures |rest| % 4 == 0 && |[] + rest| % 4 == 0
    ensures Pads(q) == 0 ==> DecodedGroups(q + rest) == Prepend(Triple(q), DecodedGroups([] + rest))
    ensures 0 < Pads(q) <= 2 ==> DecodedGroups(q + rest) == Bytes(Triple(q)[..3 - Pads(q)])
    ensures Pads(q) > 2 ==> DecodedGroups(q + rest) == Invalid
  {
    var t := q + rest;
    FourLess(|t|);
    assert t[..4] == q && t[4..] == rest && [] + rest == rest;
    hide Triple, Pads;
  }

  lemma PrependTwice(a: seq<Byte>, b: seq<Byte>, d: Decoded)
    ensures Prepend(a, Prepend(b, d)) == Prepend(a + b, d)
  {
    if d.Bytes? { assert a + (b + d.bytes) == a + b + d.bytes; }
  }

  lemma GroupDone(all: seq<Byte>, done: seq<Byte>, q: seq<Byte>, rest: seq<Byte>)
    requires |q| == 4 && Decoding(all, done, q, rest)
    ensures |all| % 4 == 0 && |done| + 3 <= |all| / 4 * 3
    ensures Pads(q) == 0 ==> Decoding(all, done + Triple(q), [], rest)
    ensures 0 < Pads(q) <= 2 ==> DecodedGroups(all) == Bytes(done + Triple(q)[..3 - Pads(q)])
    ensures Pads(q) > 2 ==> DecodedGroups(all) == Invalid
  {
    FirstGroup(q, rest);
    hide Triple, Pads, DecodedGroups;
    if Pads(q) == 0 {
      PrependTwice(done, Triple(q), DecodedGroups([] + rest));
    }
    assert |all| / 4 * 4 == |all|;
  }

  lemma Thirds(d: nat, n: nat)
    requires d * 4 == n * 3 && n % 4 == 0
    ensures d == n / 4 * 3
  {}

  lemma DecodedNothing()
    ensures DecodedGroups([]) == Bytes([])
  {}

  lemma DecodingEnds(all: seq<Byte>, done: seq<Byte>, q: seq<Byte>)
    requires |q| < 4 && Decoding(all, done, q, [])
    ensures |all| % 4 == 0 && DecodedGroups(all) == Bytes(done) && |done| == |all| / 4 * 3
  {
    hide DecodedGroups;
    assert q + [] == q;
    DecodedNothing();
    assert q == [] && done + [] == done;
    Thirds(|done|, |all|);
  }

  /** The block holds the values of these letters. */
  ghost predicate Values(block: seq<Byte>, q: seq<Byte>) {
    |block| == |q| && forall k :: 0 <= k < |q| ==> block[k] == Value(q[k])
  }

  /** The three bytes of a full block. */
  method PutTriple(out: array<Byte>, pos: nat, block: seq<Byte>, ghost q: seq<Byte>)
    requires |q| == 4 && pos + 3 <= out.Length && Values(block, q)
    modifies out
    ensures out[..pos + 3] == old(out[..pos]) + Triple(q)
  {
    var t := Join(block[0], block[1], block[2], block[3]);
    hide Join, Value;
    out[pos] := t[0];
    out[pos + 1] := t[1];
    out[pos + 2] := t[2];
  }

  /** A full block: three bytes, less its '='; with a '=' in it the text ends here. */
  method FinishGroup(out: array<Byte>, pos0: nat, block: seq<Byte>, ghost q: seq<Byte>, pad: nat, ghost all: seq<Byte>,
                     ghost rest: seq<Byte>)
    returns (pos: nat, stop: bool, ok: bool)
    requires |q| == 4 && Values(block, q) && pad == Pads(q) && |all| % 4 == 0 && out.Length > |all| / 4 * 3
    requires pos0 <= out.Length && Decoding(all, out[..pos0], q, rest)
    modifies out
    ensures pos <= out.Length && Pads([]) == 0 && Values([], [])
    ensures (stop <==> pad != 0) && (!stop ==> Decoding(all, out[..pos], [], rest))
    ensures stop ==>
              if ok then pos < out.Length && DecodedGroups(all) == Bytes(out[..pos]) else DecodedGroups(all) == Invalid
  {
    GroupDone(all, out[..pos0], q, rest);
    assert Pads([]) == 0 && Values([], []);
    hide Decoding, DecodedGroups, Triple, Values, Pads;
    ghost var done := out[..pos0];
    PutTriple(out, pos0, block, q);
    pos := pos0 + 3;
    stop, ok := pad != 0, true;
    assert out[..pos] == done + Triple(q);
    if pad == 1 {
      pos := pos - 1;
      assert out[..pos0 + 3][..pos] == out[..pos] && (done + Triple(q))[..pos] == done + Triple(q)[..2];
    } else if pad == 2 {
      pos := pos - 2;
      assert out[..pos0 + 3][..pos] == out[..pos] && (done + Triple(q))[..pos] == done + Triple(q)[..1];
    } else if pad != 0 {
      ok := false;
    }
  }

  lemma DecodingShift(all: seq<Byte>, done: seq<Byte>, q: seq<Byte>, c: Byte, rest: seq<Byte>)
    requires Decoding(all, done, q, [c] + rest)
    ensures Decoding(all, done, q + [c], rest)
  {
    assert q + ([c] + rest) == q + [c] + rest;
  }

  lemma OneMoreLetter(all: seq<Byte>, done: seq<Byte>, block: seq<Byte>, q: seq<Byte>, c: Byte, rest: seq<Byte>)
    requires Decoding(all, done, q, [c] + rest) && Values(block, q)
    ensures Decoding(all, done, q + [c], rest) && Values(block + [Value(c)], q + [c])
    ensures Pads(q + [c]) == Pads(q) + (if c == PAD then 1 else 0)
  {
    PadsAppend(q, c);
    DecodingShift(all, done, q, c, rest);
    hide Decoding, Value, Pads;
  }

  /** The second loop of `base64_decode`; `ok` is false for the return on invalid padding. */
  method DecodeGroups(src: seq<Byte>, out: array<Byte>, ghost all: seq<Byte>) returns (pos: nat, ok: bool)
    requires all == Known(src) && |all| % 4 == 0 && out.Length > |all| / 4 * 3
    modifies out
    ensures if ok then pos < out.Length && DecodedGroups(all) == Bytes(out[..pos]) else DecodedGroups(all) == Invalid
  {
    DecodingStarts(all);
    var i, pad := 0, 0;
    var block: seq<Byte> := [];
    ghost var q: seq<Byte> := [];
    pos := 0;
    assert src[0..] == src && out[..0] == [];
    assert Pads(q) == 0 && Values(block, q) && Known(src[|src|..]) == [];
    hide Decoding, DecodedGroups, Triple, Value, Pads, Known, Values;
    while i < |src|
      invariant 0 <= i <= |src| && pos <= out.Length && |block| == |q| < 4 && Values(block, q) && pad == Pads(q)
      invariant Decoding(all, out[..pos], q, Known(src[i..]))
      decreases |src| - i
    {
      KnownStep(src, i);
      var value := Value(src[i]);
      if value != NONE {
        OneMoreLetter(all, out[..pos], block, q, src[i], Known(src[i + 1..]));
        if src[i] == PAD { pad := pad + 1; }
        block := block + [value];
        q := q + [src[i]];
        if |block| == 4 {
          var stop;
          pos, stop, ok := FinishGroup(out, pos, block, q, pad, all, Known(src[i + 1..]));
          if stop { return pos, ok; }
          block := [];
          q := [];
        }
      } else {
        assert [] + Known(src[i + 1..]) == Known(src[i + 1..]);
      }
      i := i + 1;
    }
    DecodingEnds(all, out[..pos], q);
    ok := true;
  }

  /** `base64_decode`: the number of bytes, 0 when there are none or the text is invalid. */
  method Decode(src: seq<Byte>, out: array<Byte>) returns (n: nat)
    requires |src| < 0x8000_0000 && out.Length > |Known(src)| / 4 * 3
    modifies out
    ensures Base64Spec.Decode(src).Bytes? ==>
              n < out.Length && out[..n] == Base64Spec.Decode(src).bytes && out[n] == 0
    ensures Base64Spec.Decode(src).Invalid? ==> n == 0
  {
    var count := Count(src);
    if count == 0 || count % 4 != 0 { return 0; }
    hide DecodedGroups, Known;
    var pos, ok := DecodeGroups(src, out, Known(src));
    if !ok {
      out[0] := 0;
      return 0;
    }
    ghost var bytes := out[..pos];
    out[pos] := 0;
    assert out[..pos] == bytes;
    n := pos;
  }
}
