/** The hash of a key whose hash was published with the function: it tells the constants, the rotations and the
    order of the steps. */
module HashKnown {
  import opened HashLittle

  // ---------- exclusive or of known words ----------

  /** `r` is the exclusive or of `x` and `y`, hexadecimal digit by digit. */
  predicate DigitsXor(x: nat, y: nat, r: nat, n: nat) {
    if n == 0 then r == 0
    else XorBits(x % 16, y % 16, 4) == r % 16 && DigitsXor(x / 16, y / 16, r / 16, n - 1)
  }

  lemma XorDigit(x: nat, y: nat, n: nat)
    ensures XorBits(x, y, n + 4) == 16 * XorBits(x / 16, y / 16, n) + XorBits(x % 16, y % 16, 4)
  {
    var (x0, x1, x2, x3) := (x % 2, x / 2 % 2, x / 4 % 2, x / 8 % 2);
    var (y0, y1, y2, y3) := (y % 2, y / 2 % 2, y / 4 % 2, y / 8 % 2);
    FourBits(x / 16, y / 16, n, x0, x1, x2, x3, y0, y1, y2, y3);
    FourBits(0, 0, 0, x0, x1, x2, x3, y0, y1, y2, y3);
    BitsOf(x);
    BitsOf(y);
  }

  lemma BitsOf(x: nat)
    ensures x == 2 * (2 * (2 * (2 * (x / 16) + x / 8 % 2) + x / 4 % 2) + x / 2 % 2) + x % 2
    ensures x % 16 == 2 * (2 * (2 * (x / 8 % 2) + x / 4 % 2) + x / 2 % 2) + x % 2
  {
    assert x / 16 == x / 8 / 2 && x / 8 == x / 4 / 2 && x / 4 == x / 2 / 2;
  }

  /** One more bit at the end. */
  lemma OneBit(p: nat, q: nat, b: nat, c: nat, n: nat)
    requires b < 2 && c < 2
    ensures XorBits(2 * p + b, 2 * q + c, n + 1) == 2 * XorBits(p, q, n) + if b == c then 0 else 1
  {
    assert (2 * p + b) / 2 == p && (2 * q + c) / 2 == q && (2 * p + b) % 2 == b && (2 * q + c) % 2 == c;
  }

  function Differ(b: nat, c: nat): nat { if b == c then 0 else 1 }

  lemma FourBits(p: nat, q: nat, n: nat, b0: nat, b1: nat, b2: nat, b3: nat, c0: nat, c1: nat, c2: nat, c3: nat)
    requires b0 < 2 && b1 < 2 && b2 < 2 && b3 < 2 && c0 < 2 && c1 < 2 && c2 < 2 && c3 < 2
    ensures XorBits(2 * (2 * (2 * (2 * p + b3) + b2) + b1) + b0, 2 * (2 * (2 * (2 * q + c3) + c2) + c1) + c0, n + 4) ==
      16 * XorBits(p, q, n) + 8 * Differ(b3, c3) + 4 * Differ(b2, c2) + 2 * Differ(b1, c1) + Differ(b0, c0)
  {
    OneBit(p, q, b3, c3, n);
    OneBit(2 * p + b3, 2 * q + c3, b2, c2, n + 1);
    OneBit(2 * (2 * p + b3) + b2, 2 * (2 * q + c3) + c2, b1, c1, n + 2);
    OneBit(2 * (2 * (2 * p + b3) + b2) + b1, 2 * (2 * (2 * q + c3) + c2) + c1, b0, c0, n + 3);
  }

  lemma {:induction false} DigitsGive(x: nat, y: nat, r: nat, n: nat)
    requires DigitsXor(x, y, r, n)
    ensures XorBits(x, y, 4 * n) == r
    decreases n
  {
    if n > 0 {
      XorDigit(x, y, 4 * (n - 1));
      DigitsGive(x / 16, y / 16, r / 16, n - 1);
    }
  }

  lemma XorIs(x: word, y: word, r: word)
    requires DigitsXor(x, y, r, 8)
    ensures Xor(x, y) == r
  {
    DigitsGive(x, y, r, 8);
  }

  // ---------- the steps for one key ----------

  lemma Powers()
    ensures Pow2(4) == 0x10 && Pow2(6) == 0x40 && Pow2(8) == 0x100 && Pow2(11) == 0x800 && Pow2(14) == 0x4000
    ensures Pow2(16) == 0x1_0000 && Pow2(19) == 0x8_0000 && Pow2(24) == 0x100_0000 && Pow2(25) == 0x200_0000
    ensures Pow2(28) == 0x1000_0000 && Pow2(26) == 0x400_0000 && Pow2(21) == 0x20_0000 && Pow2(18) == 0x4_0000
    ensures Pow2(13) == 0x2000 && Pow2(7) == 0x80
  {
  }

  lemma RotIs(x: word, k: nat, p: nat, q: nat, r: word)
    requires 0 < q && k <= 32 && Pow2(k) == p && Pow2(32 - k) == q && (x * p + x / q) % WORD == r
    ensures Rot(x, k) == r
  {
  }

  lemma Xor1()
    ensures Xor(0x1155_09d4, 0xfce2_47f3) == 0xedb7_4e27
  {
    XorIs(0x1155_09d4, 0xfce2_47f3, 0xedb7_4e27);
  }

  lemma Xor2()
    ensures Xor(0x6059_e406, 0x6dd3_89fb) == 0x0d8a_6dfd
  {
    XorIs(0x6059_e406, 0x6dd3_89fb, 0x0d8a_6dfd);
  }

  lemma Xor3()
    ensures Xor(0x8054_e8af, 0x8a6d_fd0d) == 0x0a39_15a2
  {
    XorIs(0x8054_e8af, 0x8a6d_fd0d, 0x0a39_15a2);
  }

  lemma Xor4()
    ensures Xor(0x715d_8f31, 0x15a2_0a39) == 0x64ff_8508
  {
    XorIs(0x715d_8f31, 0x15a2_0a39, 0x64ff_8508);
  }

  lemma Xor5()
    ensures Xor(0x2421_8dc8, 0x2843_27fc) == 0x0c62_aa34
  {
    XorIs(0x2421_8dc8, 0x2843_27fc, 0x0c62_aa34);
  }

  lemma Xor6()
    ensures Xor(0x86f7_7e3e, 0xc62a_a340) == 0x40dd_dd7e
  {
    XorIs(0x86f7_7e3e, 0xc62a_a340, 0x40dd_dd7e);
  }

  lemma MixKnown1()
    ensures Mix(State(0x5123_2e53, 0x4e11_322d, 0x3fce_247f)) ==
      State(0xf859_ad7a, 0x04bc_57ae, 0x40dd_dd7e)
  {
    Powers();
    assert Sub(0x5123_2e53, 0x3fce_247f) == 0x1155_09d4;
    RotIs(0x3fce_247f, 4, 0x10, 0x10000000, 0xfce2_47f3);
    Xor1();
    assert Add(0x3fce_247f, 0x4e11_322d) == 0x8ddf_56ac;
    assert Sub(0x4e11_322d, 0xedb7_4e27) == 0x6059_e406;
    RotIs(0xedb7_4e27, 6, 0x40, 0x4000000, 0x6dd3_89fb);
    Xor2();
    assert Add(0xedb7_4e27, 0x8ddf_56ac) == 0x7b96_a4d3;
    assert Sub(0x8ddf_56ac, 0x0d8a_6dfd) == 0x8054_e8af;
    RotIs(0x0d8a_6dfd, 8, 0x100, 0x1000000, 0x8a6d_fd0d);
    Xor3();
    assert Add(0x0d8a_6dfd, 0x7b96_a4d3) == 0x8921_12d0;
    assert Sub(0x7b96_a4d3, 0x0a39_15a2) == 0x715d_8f31;
    RotIs(0x0a39_15a2, 16, 0x10000, 0x10000, 0x15a2_0a39);
    Xor4();
    assert Add(0x0a39_15a2, 0x8921_12d0) == 0x935a_2872;
    assert Sub(0x8921_12d0, 0x64ff_8508) == 0x2421_8dc8;
    RotIs(0x64ff_8508, 19, 0x80000, 0x2000, 0x2843_27fc);
    Xor5();
    assert Add(0x64ff_8508, 0x935a_2872) == 0xf859_ad7a;
    assert Sub(0x935a_2872, 0x0c62_aa34) == 0x86f7_7e3e;
    RotIs(0x0c62_aa34, 4, 0x10, 0x10000000, 0xc62a_a340);
    Xor6();
    assert Add(0x0c62_aa34, 0xf859_ad7a) == 0x04bc_57ae;
  }

  lemma Xor7()
    ensures Xor(0xc936_bb4a, 0x2435_69ea) == 0xed03_d2a0
  {
    XorIs(0xc936_bb4a, 0x2435_69ea, 0xed03_d2a0);
  }

  lemma Xor8()
    ensures Xor(0x861d_fb73, 0x40f4_a83b) == 0xc6e9_5348
  {
    XorIs(0x861d_fb73, 0x40f4_a83b, 0xc6e9_5348);
  }

  lemma Xor9()
    ensures Xor(0x4e7b_d169, 0xe953_48c6) == 0xa728_99af
  {
    XorIs(0x4e7b_d169, 0xe953_48c6, 0xa728_99af);
  }

  lemma Xor10()
    ensures Xor(0x5b40_5da2, 0x99af_a728) == 0xc2ef_fa8a
  {
    XorIs(0x5b40_5da2, 0x99af_a728, 0xc2ef_fa8a);
  }

  lemma Xor11()
    ensures Xor(0x0662_500f, 0xd456_177f) == 0xd234_4770
  {
    XorIs(0x0662_500f, 0xd456_177f, 0xd234_4770);
  }

  lemma Xor12()
    ensures Xor(0x9e46_9cd8, 0x2344_770d) == 0xbd02_ebd5
  {
    XorIs(0x9e46_9cd8, 0x2344_770d, 0xbd02_ebd5);
  }

  lemma MixKnown2()
    ensures Mix(State(0x6b7a_11e8, 0x7321_ce13, 0xa243_569e)) ==
      State(0x336a_ded2, 0x059f_2642, 0xbd02_ebd5)
  {
    Powers();
    assert Sub(0x6b7a_11e8, 0xa243_569e) == 0xc936_bb4a;
    RotIs(0xa243_569e, 4, 0x10, 0x10000000, 0x2435_69ea);
    Xor7();
    assert Add(0xa243_569e, 0x7321_ce13) == 0x1565_24b1;
    assert Sub(0x7321_ce13, 0xed03_d2a0) == 0x861d_fb73;
    RotIs(0xed03_d2a0, 6, 0x40, 0x4000000, 0x40f4_a83b);
    Xor8();
    assert Add(0xed03_d2a0, 0x1565_24b1) == 0x0268_f751;
    assert Sub(0x1565_24b1, 0xc6e9_5348) == 0x4e7b_d169;
    RotIs(0xc6e9_5348, 8, 0x100, 0x1000000, 0xe953_48c6);
    Xor9();
    assert Add(0xc6e9_5348, 0x0268_f751) == 0xc952_4a99;
    assert Sub(0x0268_f751, 0xa728_99af) == 0x5b40_5da2;
    RotIs(0xa728_99af, 16, 0x10000, 0x10000, 0x99af_a728);
    Xor10();
    assert Add(0xa728_99af, 0xc952_4a99) == 0x707a_e448;
    assert Sub(0xc952_4a99, 0xc2ef_fa8a) == 0x0662_500f;
    RotIs(0xc2ef_fa8a, 19, 0x80000, 0x2000, 0xd456_177f);
    Xor11();
    assert Add(0xc2ef_fa8a, 0x707a_e448) == 0x336a_ded2;
    assert Sub(0x707a_e448, 0xd234_4770) == 0x9e46_9cd8;
    RotIs(0xd234_4770, 4, 0x10, 0x10000000, 0x2344_770d);
    Xor12();
    assert Add(0xd234_4770, 0x336a_ded2) == 0x059f_2642;
  }

  lemma Xor13()
    ensures Xor(0xbd02_ebd5, 0x059f_95a9) == 0xb89d_7e7c
  {
    XorIs(0xbd02_ebd5, 0x059f_95a9, 0xb89d_7e7c);
  }

  lemma Xor14()
    ensures Xor(0x948b_5244, 0xd333_3d15) == 0x47b8_6f51
  {
    XorIs(0x948b_5244, 0xd333_3d15, 0x47b8_6f51);
  }

  lemma Xor15()
    ensures Xor(0x059f_95a9, 0xadcf_c0b8) == 0xa850_5511
  {
    XorIs(0x059f_95a9, 0xadcf_c0b8, 0xa850_5511);
  }

  lemma Xor16()
    ensures Xor(0xd333_3d15, 0x36f4_b590) == 0xe5c7_8885
  {
    XorIs(0xd333_3d15, 0x36f4_b590, 0xe5c7_8885);
  }

  lemma Xor17()
    ensures Xor(0xadcf_c0b8, 0x3037_5191) == 0x9df8_9129
  {
    XorIs(0xadcf_c0b8, 0x3037_5191, 0x9df8_9129);
  }

  lemma Xor18()
    ensures Xor(0x36f4_b590, 0x9a83_7816) == 0xac77_cd86
  {
    XorIs(0x36f4_b590, 0x9a83_7816, 0xac77_cd86);
  }

  lemma Xor19()
    ensures Xor(0x3037_5191, 0xce72_26e6) == 0xfe45_7777
  {
    XorIs(0x3037_5191, 0xce72_26e6, 0xfe45_7777);
  }

  lemma FinalRots()
    ensures Rot(0x059f_95a9, 14) == 0xe56a_4167
    ensures Rot(0xd333_3d15, 11) == 0x99e8_ae99
    ensures Rot(0xadcf_c0b8, 25) == 0x715b_9f81
    ensures Rot(0x36f4_b590, 16) == 0xb590_36f4
    ensures Rot(0x3037_5191, 4) == 0x0375_1913
    ensures Rot(0x9a83_7816, 14) == 0xde05_a6a0
    ensures Rot(0xce72_26e6, 24) == 0xe6ce_7226
  {
    Powers();
    RotIs(0x059f_95a9, 14, 0x4000, 0x40000, 0xe56a_4167);
    RotIs(0xd333_3d15, 11, 0x800, 0x200000, 0x99e8_ae99);
    RotIs(0xadcf_c0b8, 25, 0x2000000, 0x80, 0x715b_9f81);
    RotIs(0x36f4_b590, 16, 0x10000, 0x10000, 0xb590_36f4);
    RotIs(0x3037_5191, 4, 0x10, 0x10000000, 0x0375_1913);
    RotIs(0x9a83_7816, 14, 0x4000, 0x40000, 0xde05_a6a0);
    RotIs(0xce72_26e6, 24, 0x1000000, 0x100, 0xe6ce_7226);
  }

  lemma FinalKnown()
    ensures Final(State(0x948b_5244, 0x059f_95a9, 0xbd02_ebd5)) == 0x1777_0551
  {
    FinalRots();
    Xor13();
    assert Sub(0xb89d_7e7c, 0xe56a_4167) == 0xd333_3d15;
    Xor14();
    assert Sub(0x47b8_6f51, 0x99e8_ae99) == 0xadcf_c0b8;
    Xor15();
    assert Sub(0xa850_5511, 0x715b_9f81) == 0x36f4_b590;
    Xor16();
    assert Sub(0xe5c7_8885, 0xb590_36f4) == 0x3037_5191;
    Xor17();
    assert Sub(0x9df8_9129, 0x0375_1913) == 0x9a83_7816;
    Xor18();
    assert Sub(0xac77_cd86, 0xde05_a6a0) == 0xce72_26e6;
    Xor19();
    assert Sub(0xfe45_7777, 0xe6ce_7226) == 0x1777_0551;
  }

  // ---------- the key ----------

  lemma WordAt(key: seq<byte>, i: nat, a: byte, b: byte, c: byte, d: byte)
    requires i + 4 <= |key| && key[i] == a && key[i + 1] == b && key[i + 2] == c && key[i + 3] == d
    ensures Word(key[i..i + 4]) == a + 0x100 * b + 0x1_0000 * c + 0x100_0000 * d
  {
    WordIs(key[i..i + 4], a, b, c, d);
  }

  lemma WordIs(s: seq<byte>, a: byte, b: byte, c: byte, d: byte)
    requires s == [a, b, c, d]
    ensures Word(s) == a + 0x100 * b + 0x1_0000 * c + 0x100_0000 * d
  {
    assert s[1..] == [b, c, d] && [b, c, d][1..] == [c, d] && [c, d][1..] == [d] && [d][1..] == [];
    assert Number([]) == 0;
    assert Number([d]) == d;
    assert Number([c, d]) == c + 0x100 * d;
    assert Number([b, c, d]) == b + 0x100 * (c + 0x100 * d);
  }

  /** "Four score and seven years ago" in ASCII. */
  const KEY: seq<byte> :=
    [70, 111, 117, 114, 32, 115, 99, 111, 114, 101, 32, 97, 110, 100, 32,
     115, 101, 118, 101, 110, 32, 121, 101, 97, 114, 115, 32, 97, 103, 111]

  /** The blocks of a key of thirty bytes. */
  lemma Thirty(m: Mixer, key: seq<byte>, s: State<word>)
    requires |key| == 30
    ensures Last(key) == key[24..]
    ensures Blocks(m, s, key) == m.mix(Absorb(m.mix(Absorb(s, key)), key[12..]))
  {
    assert key[12..][12..] == key[24..];
    assert Blocks(m, s, key) == Blocks(m, m.mix(Absorb(s, key)), key[12..]);
    assert Last(key) == Last(key[12..]);
  }

  lemma Parts(key: seq<byte>)
    requires |key| == 30
    ensures Part(key, 0) == key[0..4] && Part(key, 4) == key[4..8] && Part(key, 8) == key[8..12]
    ensures Part(key[12..], 0) == key[12..16] && Part(key[12..], 4) == key[16..20] && Part(key[12..], 8) == key[20..24]
    ensures Part(key[24..], 0) == key[24..28] && Part(key[24..], 4) == key[28..] && Part(key[24..], 8) == []
  {
  }

  lemma Words1(key: seq<byte>)
    requires key == KEY
    ensures Word(key[0..4]) == 0x7275_6f46
    ensures Word(key[4..8]) == 0x6f63_7320
  {
    WordAt(key, 0, 70, 111, 117, 114);
    WordAt(key, 4, 32, 115, 99, 111);
  }

  lemma Words2(key: seq<byte>)
    requires key == KEY
    ensures Word(key[8..12]) == 0x6120_6572
    ensures Word(key[12..16]) == 0x7320_646e
  {
    WordAt(key, 8, 114, 101, 32, 97);
    WordAt(key, 12, 110, 100, 32, 115);
  }

  lemma Words3(key: seq<byte>)
    requires key == KEY
    ensures Word(key[16..20]) == 0x6e65_7665
    ensures Word(key[20..24]) == 0x6165_7920
  {
    WordAt(key, 16, 101, 118, 101, 110);
    WordAt(key, 20, 32, 121, 101, 97);
  }

  lemma Words4(key: seq<byte>)
    requires key == KEY
    ensures Word(key[24..28]) == 0x6120_7372
    ensures Word(key[28..]) == 0x0000_6f67 && Word([]) == 0
  {
    WordAt(key, 24, 114, 115, 32, 97);
    assert key[28..] == [103, 111] && [103, 111][1..] == [111] && [111][1..] == [];
    assert Number([111]) == 111;
  }

  /** The published hash. */
  lemma KnownHash()
    ensures Hash(JENKINS, KEY, 0) == 0x1777_0551
  {
    var key, s := KEY, State(0xdead_bf0d, 0xdead_bf0d, 0xdead_bf0d);
    assert Start(30, 0) == s;
    Thirty(JENKINS, key, s);
    Parts(key);
    Words1(key);
    Words2(key);
    Words3(key);
    Words4(key);
    assert Absorb(s, key) == State(0x5123_2e53, 0x4e11_322d, 0x3fce_247f);
    MixKnown1();
    assert Absorb(State(0xf859_ad7a, 0x04bc_57ae, 0x40dd_dd7e), key[12..]) ==
      State(0x6b7a_11e8, 0x7321_ce13, 0xa243_569e);
    MixKnown2();
    assert Absorb(State(0x336a_ded2, 0x059f_2642, 0xbd02_ebd5), key[24..]) ==
      State(0x948b_5244, 0x059f_95a9, 0xbd02_ebd5);
    FinalKnown();
  }
}
