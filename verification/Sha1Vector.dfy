/** The first test of section 7.3 of RFC 3174, step by step. */
module Sha1Vector {
  import opened Bitwise
  import opened Blocks
  import opened Masks
  import Sha1
  import opened Sha1Laws
  import opened Sha1Spec
  import opened WordLaws
  import opened Words

  predicate Four(ws: seq<Word>, t: nat, a: bv32, b: bv32, c: bv32, d: bv32) {
    t + 4 <= |ws| && ws[t] == Nat(a) && ws[t + 1] == Nat(b) && ws[t + 2] == Nat(c) && ws[t + 3] == Nat(d)
  }

  function Mixed(p: bv32, q: bv32, r: bv32, s: bv32): bv32 { p ^ q ^ r ^ s }

  lemma MixedOf(p: bv32, q: bv32, r: bv32, s: bv32)
    ensures Vector(XOR, Parity(p, q, r), s) == Mixed(p, q, r, s)
  {
    hide Vector;
    ParityIs(p, q, r);
    XorOf(p ^ q ^ r, s);
  }

  lemma MixedIs(p: bv32, q: bv32, r: bv32, s: bv32)
    ensures Xor(Xor(Xor(Nat(p), Nat(q)), Nat(r)), Nat(s)) == Nat(Mixed(p, q, r, s))
  {
    hide Xor, Nat, Vector, Parity, Mixed;
    ParityWord(p, q, r);
    XorIs(Parity(p, q, r), s);
    MixedOf(p, q, r, s);
  }

  /** A word of the sequence from given ones. */
  lemma Mix(block: seq<Byte>, ws: seq<Word>, t: nat, p: bv32, q: bv32, r: bv32, s: bv32, x: bv32)
    requires |block| == 64 && ws == Words80(block) && 16 <= t < 80
    requires ws[t - 3] == Nat(p) && ws[t - 8] == Nat(q) && ws[t - 14] == Nat(r) && ws[t - 16] == Nat(s)
    requires var y := Nat(Mixed(p, q, r, s)); Nat(x) == 2 * (y % 0x8000_0000) + y / 0x8000_0000
    ensures ws[t] == Nat(x)
  {
    hide Xor, Rotl, Nat, Mixed;
    MixedIs(p, q, r, s);
    Shifts(Nat(Mixed(p, q, r, s)));
  }

  lemma Words16(block: seq<Byte>, ws: seq<Word>)
    requires |block| == 64 && ws == Words80(block)
    requires Four(ws, 0, 0x61626380, 0x00000000, 0x00000000, 0x00000000)
    requires Four(ws, 4, 0x00000000, 0x00000000, 0x00000000, 0x00000000)
    requires Four(ws, 8, 0x00000000, 0x00000000, 0x00000000, 0x00000000)
    requires Four(ws, 12, 0x00000000, 0x00000000, 0x00000000, 0x00000018)
    ensures Four(ws, 16, 0xC2C4C700, 0x00000000, 0x00000030, 0x85898E01)
    ensures Four(ws, 20, 0x00000000, 0x00000060, 0x0B131C03, 0x00000030)
  {
    hide Words80;
    Mix(block, ws, 16, 0x00000000, 0x00000000, 0x00000000, 0x61626380, 0xC2C4C700);
    Mix(block, ws, 17, 0x00000000, 0x00000000, 0x00000000, 0x00000000, 0x00000000);
    Mix(block, ws, 18, 0x00000018, 0x00000000, 0x00000000, 0x00000000, 0x00000030);
    Mix(block, ws, 19, 0xC2C4C700, 0x00000000, 0x00000000, 0x00000000, 0x85898E01);
    Mix(block, ws, 20, 0x00000000, 0x00000000, 0x00000000, 0x00000000, 0x00000000);
    Mix(block, ws, 21, 0x00000030, 0x00000000, 0x00000000, 0x00000000, 0x00000060);
    Mix(block, ws, 22, 0x85898E01, 0x00000000, 0x00000000, 0x00000000, 0x0B131C03);
    Mix(block, ws, 23, 0x00000000, 0x00000018, 0x00000000, 0x00000000, 0x00000030);
  }

  lemma Words24(block: seq<Byte>, ws: seq<Word>)
    requires |block| == 64 && ws == Words80(block)
    requires Four(ws, 8, 0x00000000, 0x00000000, 0x00000000, 0x00000000)
    requires Four(ws, 12, 0x00000000, 0x00000000, 0x00000000, 0x00000018)
    requires Four(ws, 16, 0xC2C4C700, 0x00000000, 0x00000030, 0x85898E01)
    requires Four(ws, 20, 0x00000000, 0x00000060, 0x0B131C03, 0x00000030)
    ensures Four(ws, 24, 0x85898EC1, 0x16263806, 0x00000000, 0x00000180)
    ensures Four(ws, 28, 0x2C4C700C, 0x000000F0, 0x93AFB507, 0x5898E048)
  {
    hide Words80;
    Mix(block, ws, 24, 0x00000060, 0xC2C4C700, 0x00000000, 0x00000000, 0x85898EC1);
    Mix(block, ws, 25, 0x0B131C03, 0x00000000, 0x00000000, 0x00000000, 0x16263806);
    Mix(block, ws, 26, 0x00000030, 0x00000030, 0x00000000, 0x00000000, 0x00000000);
    Mix(block, ws, 27, 0x85898EC1, 0x85898E01, 0x00000000, 0x00000000, 0x00000180);
    Mix(block, ws, 28, 0x16263806, 0x00000000, 0x00000000, 0x00000000, 0x2C4C700C);
    Mix(block, ws, 29, 0x00000000, 0x00000060, 0x00000018, 0x00000000, 0x000000F0);
    Mix(block, ws, 30, 0x00000180, 0x0B131C03, 0xC2C4C700, 0x00000000, 0x93AFB507);
    Mix(block, ws, 31, 0x2C4C700C, 0x00000030, 0x00000000, 0x00000018, 0x5898E048);
  }

  lemma Words32(block: seq<Byte>, ws: seq<Word>)
    requires |block| == 64 && ws == Words80(block)
    requires Four(ws, 16, 0xC2C4C700, 0x00000000, 0x00000030, 0x85898E01)
    requires Four(ws, 20, 0x00000000, 0x00000060, 0x0B131C03, 0x00000030)
    requires Four(ws, 24, 0x85898EC1, 0x16263806, 0x00000000, 0x00000180)
    requires Four(ws, 28, 0x2C4C700C, 0x000000F0, 0x93AFB507, 0x5898E048)
    ensures Four(ws, 32, 0x8E9A9202, 0x00000600, 0xB131C0F0, 0x16263BC6)
    ensures Four(ws, 36, 0x4EBED41E, 0x626380A1, 0x16263806, 0x000018C0)
  {
    hide Words80;
    Mix(block, ws, 32, 0x000000F0, 0x85898EC1, 0x00000030, 0xC2C4C700, 0x8E9A9202);
    Mix(block, ws, 33, 0x93AFB507, 0x16263806, 0x85898E01, 0x00000000, 0x00000600);
    Mix(block, ws, 34, 0x5898E048, 0x00000000, 0x00000000, 0x00000030, 0xB131C0F0);
    Mix(block, ws, 35, 0x8E9A9202, 0x00000180, 0x00000060, 0x85898E01, 0x16263BC6);
    Mix(block, ws, 36, 0x00000600, 0x2C4C700C, 0x0B131C03, 0x00000000, 0x4EBED41E);
    Mix(block, ws, 37, 0xB131C0F0, 0x000000F0, 0x00000030, 0x00000060, 0x626380A1);
    Mix(block, ws, 38, 0x16263BC6, 0x93AFB507, 0x85898EC1, 0x0B131C03, 0x16263806);
    Mix(block, ws, 39, 0x4EBED41E, 0x5898E048, 0x16263806, 0x00000030, 0x000018C0);
  }

  lemma Words40(block: seq<Byte>, ws: seq<Word>)
    requires |block| == 64 && ws == Words80(block)
    requires Four(ws, 24, 0x85898EC1, 0x16263806, 0x00000000, 0x00000180)
    requires Four(ws, 28, 0x2C4C700C, 0x000000F0, 0x93AFB507, 0x5898E048)
    requires Four(ws, 32, 0x8E9A9202, 0x00000600, 0xB131C0F0, 0x16263BC6)
    requires Four(ws, 36, 0x4EBED41E, 0x626380A1, 0x16263806, 0x000018C0)
    ensures Four(ws, 40, 0xD2E138C4, 0x00000F00, 0x3AFB5079, 0x898E04E5)
    ensures Four(ws, 44, 0xE2BA3C2B, 0x000060C0, 0x053A37CD, 0x74458547)
  {
    hide Words80;
    Mix(block, ws, 40, 0x626380A1, 0x8E9A9202, 0x00000000, 0x85898EC1, 0xD2E138C4);
    Mix(block, ws, 41, 0x16263806, 0x00000600, 0x00000180, 0x16263806, 0x00000F00);
    Mix(block, ws, 42, 0x000018C0, 0xB131C0F0, 0x2C4C700C, 0x00000000, 0x3AFB5079);
    Mix(block, ws, 43, 0xD2E138C4, 0x16263BC6, 0x000000F0, 0x00000180, 0x898E04E5);
    Mix(block, ws, 44, 0x00000F00, 0x4EBED41E, 0x93AFB507, 0x2C4C700C, 0xE2BA3C2B);
    Mix(block, ws, 45, 0x3AFB5079, 0x626380A1, 0x5898E048, 0x000000F0, 0x000060C0);
    Mix(block, ws, 46, 0x898E04E5, 0x16263806, 0x8E9A9202, 0x93AFB507, 0x053A37CD);
    Mix(block, ws, 47, 0xE2BA3C2B, 0x000018C0, 0x00000600, 0x5898E048, 0x74458547);
  }

  lemma Words48(block: seq<Byte>, ws: seq<Word>)
    requires |block| == 64 && ws == Words80(block)
    requires Four(ws, 32, 0x8E9A9202, 0x00000600, 0xB131C0F0, 0x16263BC6)
    requires Four(ws, 36, 0x4EBED41E, 0x626380A1, 0x16263806, 0x000018C0)
    requires Four(ws, 40, 0xD2E138C4, 0x00000F00, 0x3AFB5079, 0x898E04E5)
    requires Four(ws, 44, 0xE2BA3C2B, 0x000060C0, 0x053A37CD, 0x74458547)
    ensures Four(ws, 48, 0xDA9415ED, 0x26380A16, 0x626383A1, 0x4EBF54DE)
    ensures Four(ws, 52, 0x3835B44B, 0x0000F600, 0x1E84C7A3, 0x98E04D98)
  {
    hide Words80;
    Mix(block, ws, 48, 0x000060C0, 0xD2E138C4, 0xB131C0F0, 0x8E9A9202, 0xDA9415ED);
    Mix(block, ws, 49, 0x053A37CD, 0x00000F00, 0x16263BC6, 0x00000600, 0x26380A16);
    Mix(block, ws, 50, 0x74458547, 0x3AFB5079, 0x4EBED41E, 0xB131C0F0, 0x626383A1);
    Mix(block, ws, 51, 0xDA9415ED, 0x898E04E5, 0x626380A1, 0x16263BC6, 0x4EBF54DE);
    Mix(block, ws, 52, 0x26380A16, 0xE2BA3C2B, 0x16263806, 0x4EBED41E, 0x3835B44B);
    Mix(block, ws, 53, 0x626383A1, 0x000060C0, 0x000018C0, 0x626380A1, 0x0000F600);
    Mix(block, ws, 54, 0x4EBF54DE, 0x053A37CD, 0xD2E138C4, 0x16263806, 0x1E84C7A3);
    Mix(block, ws, 55, 0x3835B44B, 0x74458547, 0x00000F00, 0x000018C0, 0x98E04D98);
  }

  lemma Words56(block: seq<Byte>, ws: seq<Word>)
    requires |block| == 64 && ws == Words80(block)
    requires Four(ws, 40, 0xD2E138C4, 0x00000F00, 0x3AFB5079, 0x898E04E5)
    requires Four(ws, 44, 0xE2BA3C2B, 0x000060C0, 0x053A37CD, 0x74458547)
    requires Four(ws, 48, 0xDA9415ED, 0x26380A16, 0x626383A1, 0x4EBF54DE)
    requires Four(ws, 52, 0x3835B44B, 0x0000F600, 0x1E84C7A3, 0x98E04D98)
    ensures Four(ws, 56, 0x651D16A0, 0x62658CA1, 0x458544D6, 0x44584CB7)
    ensures Four(ws, 60, 0x7BA06619, 0x6380AEA2, 0x0AE55269, 0x627B49A1)
  {
    hide Words80;
    Mix(block, ws, 56, 0x0000F600, 0xDA9415ED, 0x3AFB5079, 0xD2E138C4, 0x651D16A0);
    Mix(block, ws, 57, 0x1E84C7A3, 0x26380A16, 0x898E04E5, 0x00000F00, 0x62658CA1);
    Mix(block, ws, 58, 0x98E04D98, 0x626383A1, 0xE2BA3C2B, 0x3AFB5079, 0x458544D6);
    Mix(block, ws, 59, 0x651D16A0, 0x4EBF54DE, 0x000060C0, 0x898E04E5, 0x44584CB7);
    Mix(block, ws, 60, 0x62658CA1, 0x3835B44B, 0x053A37CD, 0xE2BA3C2B, 0x7BA06619);
    Mix(block, ws, 61, 0x458544D6, 0x0000F600, 0x74458547, 0x000060C0, 0x6380AEA2);
    Mix(block, ws, 62, 0x44584CB7, 0x1E84C7A3, 0xDA9415ED, 0x053A37CD, 0x0AE55269);
    Mix(block, ws, 63, 0x7BA06619, 0x98E04D98, 0x26380A16, 0x74458547, 0x627B49A1);
  }

  lemma Words64(block: seq<Byte>, ws: seq<Word>)
    requires |block| == 64 && ws == Words80(block)
    requires Four(ws, 48, 0xDA9415ED, 0x26380A16, 0x626383A1, 0x4EBF54DE)
    requires Four(ws, 52, 0x3835B44B, 0x0000F600, 0x1E84C7A3, 0x98E04D98)
    requires Four(ws, 56, 0x651D16A0, 0x62658CA1, 0x458544D6, 0x44584CB7)
    requires Four(ws, 60, 0x7BA06619, 0x6380AEA2, 0x0AE55269, 0x627B49A1)
    ensures Four(ws, 64, 0x7CD45C9D, 0x000F0000, 0xFB50753A, 0xEC6765E8)
    ensures Four(ws, 68, 0xBA3C2BE2, 0x0060C000, 0x3A37CD05, 0x458546F4)
  {
    hide Words80;
    Mix(block, ws, 64, 0x6380AEA2, 0x651D16A0, 0x626383A1, 0xDA9415ED, 0x7CD45C9D);
    Mix(block, ws, 65, 0x0AE55269, 0x62658CA1, 0x4EBF54DE, 0x26380A16, 0x000F0000);
    Mix(block, ws, 66, 0x627B49A1, 0x458544D6, 0x3835B44B, 0x626383A1, 0xFB50753A);
    Mix(block, ws, 67, 0x7CD45C9D, 0x44584CB7, 0x0000F600, 0x4EBF54DE, 0xEC6765E8);
    Mix(block, ws, 68, 0x000F0000, 0x7BA06619, 0x1E84C7A3, 0x3835B44B, 0xBA3C2BE2);
    Mix(block, ws, 69, 0xFB50753A, 0x6380AEA2, 0x98E04D98, 0x0000F600, 0x0060C000);
    Mix(block, ws, 70, 0xEC6765E8, 0x0AE55269, 0x651D16A0, 0x1E84C7A3, 0x3A37CD05);
    Mix(block, ws, 71, 0xBA3C2BE2, 0x627B49A1, 0x62658CA1, 0x98E04D98, 0x458546F4);
  }

  lemma Words72(block: seq<Byte>, ws: seq<Word>)
    requires |block| == 64 && ws == Words80(block)
    requires Four(ws, 56, 0x651D16A0, 0x62658CA1, 0x458544D6, 0x44584CB7)
    requires Four(ws, 60, 0x7BA06619, 0x6380AEA2, 0x0AE55269, 0x627B49A1)
    requires Four(ws, 64, 0x7CD45C9D, 0x000F0000, 0xFB50753A, 0xEC6765E8)
    requires Four(ws, 68, 0xBA3C2BE2, 0x0060C000, 0x3A37CD05, 0x458546F4)
    ensures Four(ws, 72, 0xB8599DD6, 0x380A1A26, 0x01E02203, 0xE7CC3456)
    ensures Four(ws, 76, 0xE6E60B69, 0x00F60A00, 0x5795EF4F, 0x822E0879)
  {
    hide Words80;
    Mix(block, ws, 72, 0x0060C000, 0x7CD45C9D, 0x458544D6, 0x651D16A0, 0xB8599DD6);
    Mix(block, ws, 73, 0x3A37CD05, 0x000F0000, 0x44584CB7, 0x62658CA1, 0x380A1A26);
    Mix(block, ws, 74, 0x458546F4, 0xFB50753A, 0x7BA06619, 0x458544D6, 0x01E02203);
    Mix(block, ws, 75, 0xB8599DD6, 0xEC6765E8, 0x6380AEA2, 0x44584CB7, 0xE7CC3456);
    Mix(block, ws, 76, 0x380A1A26, 0xBA3C2BE2, 0x0AE55269, 0x7BA06619, 0xE6E60B69);
    Mix(block, ws, 77, 0x01E02203, 0x0060C000, 0x627B49A1, 0x6380AEA2, 0x00F60A00);
    Mix(block, ws, 78, 0xE7CC3456, 0x3A37CD05, 0x7CD45C9D, 0x0AE55269, 0x5795EF4F);
    Mix(block, ws, 79, 0xE6E60B69, 0x458546F4, 0x000F0000, 0x627B49A1, 0x822E0879);
  }

  lemma Steps0(ws: seq<Word>)
    requires Four(ws, 0, 0x61626380, 0x00000000, 0x00000000, 0x00000000)
    requires Four(ws, 4, 0x00000000, 0x00000000, 0x00000000, 0x00000000)
    requires Before(H0, ws, 0, 0x67452301, 0xEFCDAB89, 0x98BADCFE, 0x10325476, 0xC3D2E1F0)
    ensures Before(H0, ws, 8, 0x9E8C07D4, 0x993E30C1, 0x0FF1F290, 0xB3F52677, 0xF3763846)
  {
    hide Rounds, Before;
    Turn(H0, ws, 0, 0x67452301, 0xEFCDAB89, 0x98BADCFE, 0x10325476, 0xC3D2E1F0, 0x61626380, 0x0116FC33);
    Turn(H0, ws, 1, 0x0116FC33, 0x67452301, 0x7BF36AE2, 0x98BADCFE, 0x10325476, 0x00000000, 0x8990536D);
    Turn(H0, ws, 2, 0x8990536D, 0x0116FC33, 0x59D148C0, 0x7BF36AE2, 0x98BADCFE, 0x00000000, 0xA1390F08);
    Turn(H0, ws, 3, 0xA1390F08, 0x8990536D, 0xC045BF0C, 0x59D148C0, 0x7BF36AE2, 0x00000000, 0xCDD8E11B);
    Turn(H0, ws, 4, 0xCDD8E11B, 0xA1390F08, 0x626414DB, 0xC045BF0C, 0x59D148C0, 0x00000000, 0xCFD499DE);
    Turn(H0, ws, 5, 0xCFD499DE, 0xCDD8E11B, 0x284E43C2, 0x626414DB, 0xC045BF0C, 0x00000000, 0x3FC7CA40);
    Turn(H0, ws, 6, 0x3FC7CA40, 0xCFD499DE, 0xF3763846, 0x284E43C2, 0x626414DB, 0x00000000, 0x993E30C1);
    Turn(H0, ws, 7, 0x993E30C1, 0x3FC7CA40, 0xB3F52677, 0xF3763846, 0x284E43C2, 0x00000000, 0x9E8C07D4);
  }

  lemma Steps8(ws: seq<Word>)
    requires Four(ws, 8, 0x00000000, 0x00000000, 0x00000000, 0x00000000)
    requires Four(ws, 12, 0x00000000, 0x00000000, 0x00000000, 0x00000018)
    requires Before(H0, ws, 8, 0x9E8C07D4, 0x993E30C1, 0x0FF1F290, 0xB3F52677, 0xF3763846)
    ensures Before(H0, ws, 16, 0x20BDD62F, 0x196BEE77, 0x644A3DA5, 0x1181ED99, 0x18C623F9)
  {
    hide Rounds, Before;
    Turn(H0, ws, 8, 0x9E8C07D4, 0x993E30C1, 0x0FF1F290, 0xB3F52677, 0xF3763846, 0x00000000, 0x4B6AE328);
    Turn(H0, ws, 9, 0x4B6AE328, 0x9E8C07D4, 0x664F8C30, 0x0FF1F290, 0xB3F52677, 0x00000000, 0x8351F929);
    Turn(H0, ws, 10, 0x8351F929, 0x4B6AE328, 0x27A301F5, 0x664F8C30, 0x0FF1F290, 0x00000000, 0xFBDA9E89);
    Turn(H0, ws, 11, 0xFBDA9E89, 0x8351F929, 0x12DAB8CA, 0x27A301F5, 0x664F8C30, 0x00000000, 0x63188FE4);
    Turn(H0, ws, 12, 0x63188FE4, 0xFBDA9E89, 0x60D47E4A, 0x12DAB8CA, 0x27A301F5, 0x00000000, 0x4607B664);
    Turn(H0, ws, 13, 0x4607B664, 0x63188FE4, 0x7EF6A7A2, 0x60D47E4A, 0x12DAB8CA, 0x00000000, 0x9128F695);
    Turn(H0, ws, 14, 0x9128F695, 0x4607B664, 0x18C623F9, 0x7EF6A7A2, 0x60D47E4A, 0x00000000, 0x196BEE77);
    Turn(H0, ws, 15, 0x196BEE77, 0x9128F695, 0x1181ED99, 0x18C623F9, 0x7EF6A7A2, 0x00000018, 0x20BDD62F);
  }

  lemma Steps16(ws: seq<Word>)
    requires Four(ws, 16, 0xC2C4C700, 0x00000000, 0x00000030, 0x85898E01)
    requires Four(ws, 20, 0x00000000, 0x00000060, 0x0B131C03, 0x00000030)
    requires Before(H0, ws, 16, 0x20BDD62F, 0x196BEE77, 0x644A3DA5, 0x1181ED99, 0x18C623F9)
    ensures Before(H0, ws, 24, 0xD541F12D, 0x21283486, 0x0CE88EFF, 0x868DEC32, 0x7F67875F)
  {
    hide Rounds, Before;
    Turn(H0, ws, 16, 0x20BDD62F, 0x196BEE77, 0x644A3DA5, 0x1181ED99, 0x18C623F9, 0xC2C4C700, 0x4E925823);
    Turn(H0, ws, 17, 0x4E925823, 0x20BDD62F, 0xC65AFB9D, 0x644A3DA5, 0x1181ED99, 0x00000000, 0x82AA6728);
    Turn(H0, ws, 18, 0x82AA6728, 0x4E925823, 0xC82F758B, 0xC65AFB9D, 0x644A3DA5, 0x00000030, 0xDC64901D);
    Turn(H0, ws, 19, 0xDC64901D, 0x82AA6728, 0xD3A49608, 0xC82F758B, 0xC65AFB9D, 0x85898E01, 0xFD9E1D7D);
    Turn(H0, ws, 20, 0xFD9E1D7D, 0xDC64901D, 0x20AA99CA, 0xD3A49608, 0xC82F758B, 0x00000000, 0x1A37B0CA);
    Turn(H0, ws, 21, 0x1A37B0CA, 0xFD9E1D7D, 0x77192407, 0x20AA99CA, 0xD3A49608, 0x00000060, 0x33A23BFC);
    Turn(H0, ws, 22, 0x33A23BFC, 0x1A37B0CA, 0x7F67875F, 0x77192407, 0x20AA99CA, 0x0B131C03, 0x21283486);
    Turn(H0, ws, 23, 0x21283486, 0x33A23BFC, 0x868DEC32, 0x7F67875F, 0x77192407, 0x00000030, 0xD541F12D);
  }

  lemma Steps24(ws: seq<Word>)
    requires Four(ws, 24, 0x85898EC1, 0x16263806, 0x00000000, 0x00000180)
    requires Four(ws, 28, 0x2C4C700C, 0x000000F0, 0x93AFB507, 0x5898E048)
    requires Before(H0, ws, 24, 0xD541F12D, 0x21283486, 0x0CE88EFF, 0x868DEC32, 0x7F67875F)
    ensures Before(H0, ws, 32, 0x3B845D33, 0x1267B407, 0x717EEBD7, 0xA0DC2D4B, 0xD2AA1365)
  {
    hide Rounds, Before;
    Turn(H0, ws, 24, 0xD541F12D, 0x21283486, 0x0CE88EFF, 0x868DEC32, 0x7F67875F, 0x85898EC1, 0xC7567DC6);
    Turn(H0, ws, 25, 0xC7567DC6, 0xD541F12D, 0x884A0D21, 0x0CE88EFF, 0x868DEC32, 0x16263806, 0x48413BA4);
    Turn(H0, ws, 26, 0x48413BA4, 0xC7567DC6, 0x75507C4B, 0x884A0D21, 0x0CE88EFF, 0x00000000, 0xBE35FBD5);
    Turn(H0, ws, 27, 0xBE35FBD5, 0x48413BA4, 0xB1D59F71, 0x75507C4B, 0x884A0D21, 0x00000180, 0x4AA84D97);
    Turn(H0, ws, 28, 0x4AA84D97, 0xBE35FBD5, 0x12104EE9, 0xB1D59F71, 0x75507C4B, 0x2C4C700C, 0x8370B52E);
    Turn(H0, ws, 29, 0x8370B52E, 0x4AA84D97, 0x6F8D7EF5, 0x12104EE9, 0xB1D59F71, 0x000000F0, 0xC5FBAF5D);
    Turn(H0, ws, 30, 0xC5FBAF5D, 0x8370B52E, 0xD2AA1365, 0x6F8D7EF5, 0x12104EE9, 0x93AFB507, 0x1267B407);
    Turn(H0, ws, 31, 0x1267B407, 0xC5FBAF5D, 0xA0DC2D4B, 0xD2AA1365, 0x6F8D7EF5, 0x5898E048, 0x3B845D33);
  }

  lemma Steps32(ws: seq<Word>)
    requires Four(ws, 32, 0x8E9A9202, 0x00000600, 0xB131C0F0, 0x16263BC6)
    requires Four(ws, 36, 0x4EBED41E, 0x626380A1, 0x16263806, 0x000018C0)
    requires Before(H0, ws, 32, 0x3B845D33, 0x1267B407, 0x717EEBD7, 0xA0DC2D4B, 0xD2AA1365)
    ensures Before(H0, ws, 40, 0x32DE1CBA, 0x4C986405, 0xF718E5CF, 0x03D447F6, 0xF72EEC32)
  {
    hide Rounds, Before;
    Turn(H0, ws, 32, 0x3B845D33, 0x1267B407, 0x717EEBD7, 0xA0DC2D4B, 0xD2AA1365, 0x8E9A9202, 0x046FAA0A);
    Turn(H0, ws, 33, 0x046FAA0A, 0x3B845D33, 0xC499ED01, 0x717EEBD7, 0xA0DC2D4B, 0x00000600, 0x2C0EBC11);
    Turn(H0, ws, 34, 0x2C0EBC11, 0x046FAA0A, 0xCEE1174C, 0xC499ED01, 0x717EEBD7, 0xB131C0F0, 0x21796AD4);
    Turn(H0, ws, 35, 0x21796AD4, 0x2C0EBC11, 0x811BEA82, 0xCEE1174C, 0xC499ED01, 0x16263BC6, 0xDCBBB0CB);
    Turn(H0, ws, 36, 0xDCBBB0CB, 0x21796AD4, 0x4B03AF04, 0x811BEA82, 0xCEE1174C, 0x4EBED41E, 0x0F511FD8);
    Turn(H0, ws, 37, 0x0F511FD8, 0xDCBBB0CB, 0x085E5AB5, 0x4B03AF04, 0x811BEA82, 0x626380A1, 0xDC63973F);
    Turn(H0, ws, 38, 0xDC63973F, 0x0F511FD8, 0xF72EEC32, 0x085E5AB5, 0x4B03AF04, 0x16263806, 0x4C986405);
    Turn(H0, ws, 39, 0x4C986405, 0xDC63973F, 0x03D447F6, 0xF72EEC32, 0x085E5AB5, 0x000018C0, 0x32DE1CBA);
  }

  lemma Steps40(ws: seq<Word>)
    requires Four(ws, 40, 0xD2E138C4, 0x00000F00, 0x3AFB5079, 0x898E04E5)
    requires Four(ws, 44, 0xE2BA3C2B, 0x000060C0, 0x053A37CD, 0x74458547)
    requires Before(H0, ws, 40, 0x32DE1CBA, 0x4C986405, 0xF718E5CF, 0x03D447F6, 0xF72EEC32)
    ensures Before(H0, ws, 48, 0xBEAD02CA, 0xA01B846C, 0x8714787C, 0x503CA382, 0xFB86C6AB)
  {
    hide Rounds, Before;
    Turn(H0, ws, 40, 0x32DE1CBA, 0x4C986405, 0xF718E5CF, 0x03D447F6, 0xF72EEC32, 0xD2E138C4, 0xFC87DEDF);
    Turn(H0, ws, 41, 0xFC87DEDF, 0x32DE1CBA, 0x53261901, 0xF718E5CF, 0x03D447F6, 0x00000F00, 0x970A0D5C);
    Turn(H0, ws, 42, 0x970A0D5C, 0xFC87DEDF, 0x8CB7872E, 0x53261901, 0xF718E5CF, 0x3AFB5079, 0x7F193DC5);
    Turn(H0, ws, 43, 0x7F193DC5, 0x970A0D5C, 0xFF21F7B7, 0x8CB7872E, 0x53261901, 0x898E04E5, 0xEE1B1AAF);
    Turn(H0, ws, 44, 0xEE1B1AAF, 0x7F193DC5, 0x25C28357, 0xFF21F7B7, 0x8CB7872E, 0xE2BA3C2B, 0x40F28E09);
    Turn(H0, ws, 45, 0x40F28E09, 0xEE1B1AAF, 0x5FC64F71, 0x25C28357, 0xFF21F7B7, 0x000060C0, 0x1C51E1F2);
    Turn(H0, ws, 46, 0x1C51E1F2, 0x40F28E09, 0xFB86C6AB, 0x5FC64F71, 0x25C28357, 0x053A37CD, 0xA01B846C);
    Turn(H0, ws, 47, 0xA01B846C, 0x1C51E1F2, 0x503CA382, 0xFB86C6AB, 0x5FC64F71, 0x74458547, 0xBEAD02CA);
  }

  lemma Steps48(ws: seq<Word>)
    requires Four(ws, 48, 0xDA9415ED, 0x26380A16, 0x626383A1, 0x4EBF54DE)
    requires Four(ws, 52, 0x3835B44B, 0x0000F600, 0x1E84C7A3, 0x98E04D98)
    requires Before(H0, ws, 48, 0xBEAD02CA, 0xA01B846C, 0x8714787C, 0x503CA382, 0xFB86C6AB)
    ensures Before(H0, ws, 56, 0x5E6456AF, 0x7B71F76D, 0x09FA7C76, 0x792410DB, 0x8E11EB59)
  {
    hide Rounds, Before;
    Turn(H0, ws, 48, 0xBEAD02CA, 0xA01B846C, 0x8714787C, 0x503CA382, 0xFB86C6AB, 0xDA9415ED, 0xBAF39337);
    Turn(H0, ws, 49, 0xBAF39337, 0xBEAD02CA, 0x2806E11B, 0x8714787C, 0x503CA382, 0x26380A16, 0x120731C5);
    Turn(H0, ws, 50, 0x120731C5, 0xBAF39337, 0xAFAB40B2, 0x2806E11B, 0x8714787C, 0x626383A1, 0x641DB2CE);
    Turn(H0, ws, 51, 0x641DB2CE, 0x120731C5, 0xEEBCE4CD, 0xAFAB40B2, 0x2806E11B, 0x4EBF54DE, 0x3847AD66);
    Turn(H0, ws, 52, 0x3847AD66, 0x641DB2CE, 0x4481CC71, 0xEEBCE4CD, 0xAFAB40B2, 0x3835B44B, 0xE490436D);
    Turn(H0, ws, 53, 0xE490436D, 0x3847AD66, 0x99076CB3, 0x4481CC71, 0xEEBCE4CD, 0x0000F600, 0x27E9F1D8);
    Turn(H0, ws, 54, 0x27E9F1D8, 0xE490436D, 0x8E11EB59, 0x99076CB3, 0x4481CC71, 0x1E84C7A3, 0x7B71F76D);
    Turn(H0, ws, 55, 0x7B71F76D, 0x27E9F1D8, 0x792410DB, 0x8E11EB59, 0x99076CB3, 0x98E04D98, 0x5E6456AF);
  }

  lemma Steps56(ws: seq<Word>)
    requires Four(ws, 56, 0x651D16A0, 0x62658CA1, 0x458544D6, 0x44584CB7)
    requires Four(ws, 60, 0x7BA06619, 0x6380AEA2, 0x0AE55269, 0x627B49A1)
    requires Before(H0, ws, 56, 0x5E6456AF, 0x7B71F76D, 0x09FA7C76, 0x792410DB, 0x8E11EB59)
    ensures Before(H0, ws, 64, 0x6B61C9E1, 0xB66C020B, 0x9523272C, 0xF5D5B051, 0x8FD4B796)
  {
    hide Rounds, Before;
    Turn(H0, ws, 56, 0x5E6456AF, 0x7B71F76D, 0x09FA7C76, 0x792410DB, 0x8E11EB59, 0x651D16A0, 0xC846093F);
    Turn(H0, ws, 57, 0xC846093F, 0x5E6456AF, 0x5EDC7DDB, 0x09FA7C76, 0x792410DB, 0x62658CA1, 0xD262FF50);
    Turn(H0, ws, 58, 0xD262FF50, 0xC846093F, 0xD79915AB, 0x5EDC7DDB, 0x09FA7C76, 0x458544D6, 0x09D785FD);
    Turn(H0, ws, 59, 0x09D785FD, 0xD262FF50, 0xF211824F, 0xD79915AB, 0x5EDC7DDB, 0x44584CB7, 0x3F52DE5A);
    Turn(H0, ws, 60, 0x3F52DE5A, 0x09D785FD, 0x3498BFD4, 0xF211824F, 0xD79915AB, 0x7BA06619, 0xD756C147);
    Turn(H0, ws, 61, 0xD756C147, 0x3F52DE5A, 0x4275E17F, 0x3498BFD4, 0xF211824F, 0x6380AEA2, 0x548C9CB2);
    Turn(H0, ws, 62, 0x548C9CB2, 0xD756C147, 0x8FD4B796, 0x4275E17F, 0x3498BFD4, 0x0AE55269, 0xB66C020B);
    Turn(H0, ws, 63, 0xB66C020B, 0x548C9CB2, 0xF5D5B051, 0x8FD4B796, 0x4275E17F, 0x627B49A1, 0x6B61C9E1);
  }

  lemma Steps64(ws: seq<Word>)
    requires Four(ws, 64, 0x7CD45C9D, 0x000F0000, 0xFB50753A, 0xEC6765E8)
    requires Four(ws, 68, 0xBA3C2BE2, 0x0060C000, 0x3A37CD05, 0x458546F4)
    requires Before(H0, ws, 64, 0x6B61C9E1, 0xB66C020B, 0x9523272C, 0xF5D5B051, 0x8FD4B796)
    ensures Before(H0, ws, 72, 0x39859DE7, 0xC199F8C7, 0x8FC96230, 0x125C24F0, 0xDE37534A)
  {
    hide Rounds, Before;
    Turn(H0, ws, 64, 0x6B61C9E1, 0xB66C020B, 0x9523272C, 0xF5D5B051, 0x8FD4B796, 0x7CD45C9D, 0x19DFA7AC);
    Turn(H0, ws, 65, 0x19DFA7AC, 0x6B61C9E1, 0xED9B0082, 0x9523272C, 0xF5D5B051, 0x000F0000, 0x101655F9);
    Turn(H0, ws, 66, 0x101655F9, 0x19DFA7AC, 0x5AD87278, 0xED9B0082, 0x9523272C, 0xFB50753A, 0x0C3DF2B4);
    Turn(H0, ws, 67, 0x0C3DF2B4, 0x101655F9, 0x0677E9EB, 0x5AD87278, 0xED9B0082, 0xEC6765E8, 0x78DD4D2B);
    Turn(H0, ws, 68, 0x78DD4D2B, 0x0C3DF2B4, 0x4405957E, 0x0677E9EB, 0x5AD87278, 0xBA3C2BE2, 0x497093C0);
    Turn(H0, ws, 69, 0x497093C0, 0x78DD4D2B, 0x030F7CAD, 0x4405957E, 0x0677E9EB, 0x0060C000, 0x3F2588C2);
    Turn(H0, ws, 70, 0x3F2588C2, 0x497093C0, 0xDE37534A, 0x030F7CAD, 0x4405957E, 0x3A37CD05, 0xC199F8C7);
    Turn(H0, ws, 71, 0xC199F8C7, 0x3F2588C2, 0x125C24F0, 0xDE37534A, 0x030F7CAD, 0x458546F4, 0x39859DE7);
  }

  lemma Steps72(ws: seq<Word>)
    requires Four(ws, 72, 0xB8599DD6, 0x380A1A26, 0x01E02203, 0xE7CC3456)
    requires Four(ws, 76, 0xE6E60B69, 0x00F60A00, 0x5795EF4F, 0x822E0879)
    requires Before(H0, ws, 72, 0x39859DE7, 0xC199F8C7, 0x8FC96230, 0x125C24F0, 0xDE37534A)
    ensures Before(H0, ws, 80, 0x42541B35, 0x5738D5E1, 0x21834873, 0x681E6DF6, 0xD8FDF6AD)
  {
    hide Rounds, Before;
    Turn(H0, ws, 72, 0x39859DE7, 0xC199F8C7, 0x8FC96230, 0x125C24F0, 0xDE37534A, 0xB8599DD6, 0xEDB42DE4);
    Turn(H0, ws, 73, 0xEDB42DE4, 0x39859DE7, 0xF0667E31, 0x8FC96230, 0x125C24F0, 0x380A1A26, 0x11793F6F);
    Turn(H0, ws, 74, 0x11793F6F, 0xEDB42DE4, 0xCE616779, 0xF0667E31, 0x8FC96230, 0x01E02203, 0x5EE76897);
    Turn(H0, ws, 75, 0x5EE76897, 0x11793F6F, 0x3B6D0B79, 0xCE616779, 0xF0667E31, 0xE7CC3456, 0x63F7DAB7);
    Turn(H0, ws, 76, 0x63F7DAB7, 0x5EE76897, 0xC45E4FDB, 0x3B6D0B79, 0xCE616779, 0xE6E60B69, 0xA079B7D9);
    Turn(H0, ws, 77, 0xA079B7D9, 0x63F7DAB7, 0xD7B9DA25, 0xC45E4FDB, 0x3B6D0B79, 0x00F60A00, 0x860D21CC);
    Turn(H0, ws, 78, 0x860D21CC, 0xA079B7D9, 0xD8FDF6AD, 0xD7B9DA25, 0xC45E4FDB, 0x5795EF4F, 0x5738D5E1);
    Turn(H0, ws, 79, 0x5738D5E1, 0x860D21CC, 0x681E6DF6, 0xD8FDF6AD, 0xD7B9DA25, 0x822E0879, 0x42541B35);
  }

  const ABC: seq<Byte> := [0x61, 0x62, 0x63]

  lemma LengthBytes()
    ensures EightBytes(24) == [0, 0, 0, 0, 0, 0, 0, 24]
  {
    forall k | 0 <= k < 8 ensures Digit(24, k) == if k == 0 then 24 else 0 { OneDigit(24, k); }
  }

  /** The padded message is one block. */
  lemma PaddedAbc()
    ensures |Padded(ABC)| == 64 && Padded(ABC)[..4] == [0x61, 0x62, 0x63, 0x80] && Padded(ABC)[63] == 24
    ensures forall i :: 4 <= i < 63 ==> Padded(ABC)[i] == 0
  {
    LengthBytes();
    hide EightBytes;
  }

  lemma FirstWords(block: seq<Byte>, ws: seq<Word>)
    requires |block| == 64 && ws == Words80(block) && block[..4] == [0x61, 0x62, 0x63, 0x80] && block[63] == 24
    requires forall i :: 4 <= i < 63 ==> block[i] == 0
    ensures Four(ws, 0, 0x61626380, 0x00000000, 0x00000000, 0x00000000)
    ensures Four(ws, 4, 0x00000000, 0x00000000, 0x00000000, 0x00000000)
    ensures Four(ws, 8, 0x00000000, 0x00000000, 0x00000000, 0x00000000)
    ensures Four(ws, 12, 0x00000000, 0x00000000, 0x00000000, 0x00000018)
  {
    hide BigEndian;
    forall t | 0 <= t < 16 ensures ws[t] == if t == 0 then 0x61626380 else if t == 15 then 24 else 0 {
      assert block[..4][0] == block[0] && block[..4][1] == block[1];
      assert block[..4][2] == block[2] && block[..4][3] == block[3];
      BigEndianIs(block[4 * t], block[4 * t + 1], block[4 * t + 2], block[4 * t + 3]);
    }
  }

  lemma Starts(ws: seq<Word>)
    ensures Before(H0, ws, 0, 0x67452301, 0xEFCDAB89, 0x98BADCFE, 0x10325476, 0xC3D2E1F0)
  {}

  lemma AllSteps(block: seq<Byte>, ws: seq<Word>)
    requires |block| == 64 && ws == Words80(block)
    requires Four(ws, 0, 0x61626380, 0x00000000, 0x00000000, 0x00000000)
    requires Four(ws, 4, 0x00000000, 0x00000000, 0x00000000, 0x00000000)
    requires Four(ws, 8, 0x00000000, 0x00000000, 0x00000000, 0x00000000)
    requires Four(ws, 12, 0x00000000, 0x00000000, 0x00000000, 0x00000018)
    ensures Before(H0, ws, 80, 0x42541B35, 0x5738D5E1, 0x21834873, 0x681E6DF6, 0xD8FDF6AD)
  {
    hide Rounds, Words80, Nat, Four;
    Starts(ws);
    Words16(block, ws);
    Words24(block, ws);
    Words32(block, ws);
    Words40(block, ws);
    Words48(block, ws);
    Words56(block, ws);
    Words64(block, ws);
    Words72(block, ws);
    Steps0(ws);
    Steps8(ws);
    Steps16(ws);
    Steps24(ws);
    Steps32(ws);
    Steps40(ws);
    Steps48(ws);
    Steps56(ws);
    Steps64(ws);
    Steps72(ws);
  }

  lemma SumsTo(r: Regs)
    requires r == Regs(0x42541B35, 0x5738D5E1, 0x21834873, 0x681E6DF6, 0xD8FDF6AD)
    ensures Sum(H0, r) == Regs(0xA9993E36, 0x4706816A, 0xBA3E2571, 0x7850C26C, 0x9CD0D89D)
  {}

  lemma BytesTo()
    ensures DigestBytes(Regs(0xA9993E36, 0x4706816A, 0xBA3E2571, 0x7850C26C, 0x9CD0D89D))
            == [0xA9, 0x99, 0x3E, 0x36, 0x47, 0x06, 0x81, 0x6A, 0xBA, 0x3E,
                0x25, 0x71, 0x78, 0x50, 0xC2, 0x6C, 0x9C, 0xD0, 0xD8, 0x9D]
  {
    WordBytesIs(0xA9, 0x99, 0x3E, 0x36);
    WordBytesIs(0x47, 0x06, 0x81, 0x6A);
    WordBytesIs(0xBA, 0x3E, 0x25, 0x71);
    WordBytesIs(0x78, 0x50, 0xC2, 0x6C);
    WordBytesIs(0x9C, 0xD0, 0xD8, 0x9D);
    hide WordBytes;
  }

  /** SHA-1 of "abc". */
  lemma DigestOfAbc()
    ensures Digest(ABC)
            == [0xA9, 0x99, 0x3E, 0x36, 0x47, 0x06, 0x81, 0x6A, 0xBA, 0x3E,
                0x25, 0x71, 0x78, 0x50, 0xC2, 0x6C, 0x9C, 0xD0, 0xD8, 0x9D]
  {
    var block := Padded(ABC);
    PaddedAbc();
    FirstWords(block, Words80(block));
    AllSteps(block, Words80(block));
    SumsTo(Rounds(H0, Words80(block), 80));
    Sha1.HashAppend([], block);
    assert [] + block == block;
    BytesTo();
    hide Padded, Words80, Rounds, DigestBytes;
  }
}
