// Published values and laws of the checksums: the CRC-32 residue, and FNV-1a of
// the empty string and of "a" at both widths.
module CheckValues {
  import opened Bytes
  import opened Checksums

  // ---------------------------------------------- exclusive or, digit by digit

  /** Exclusive or of a hexadecimal digit with each digit of the polynomial. */
  function By14(x: nat): nat {
    match x
    case 0 => 14 case 1 => 15 case 2 => 12 case 3 => 13
    case 4 => 10 case 5 => 11 case 6 => 8 case 7 => 9
    case 8 => 6 case 9 => 7 case 10 => 4 case 11 => 5
    case 12 => 2 case 13 => 3 case 14 => 0 case 15 => 1
    case _ => 0
  }

  function By13(x: nat): nat {
    match x
    case 0 => 13 case 1 => 12 case 2 => 15 case 3 => 14
    case 4 => 9 case 5 => 8 case 6 => 11 case 7 => 10
    case 8 => 5 case 9 => 4 case 10 => 7 case 11 => 6
    case 12 => 1 case 13 => 0 case 14 => 3 case 15 => 2
    case _ => 0
  }

  function By11(x: nat): nat {
    match x
    case 0 => 11 case 1 => 10 case 2 => 9 case 3 => 8
    case 4 => 15 case 5 => 14 case 6 => 13 case 7 => 12
    case 8 => 3 case 9 => 2 case 10 => 1 case 11 => 0
    case 12 => 7 case 13 => 6 case 14 => 5 case 15 => 4
    case _ => 0
  }

  function By8(x: nat): nat {
    match x
    case 0 => 8 case 1 => 9 case 2 => 10 case 3 => 11
    case 4 => 12 case 5 => 13 case 6 => 14 case 7 => 15
    case 8 => 0 case 9 => 1 case 10 => 2 case 11 => 3
    case 12 => 4 case 13 => 5 case 14 => 6 case 15 => 7
    case _ => 0
  }

  function By3(x: nat): nat {
    match x
    case 0 => 3 case 1 => 2 case 2 => 1 case 3 => 0
    case 4 => 7 case 5 => 6 case 6 => 5 case 7 => 4
    case 8 => 11 case 9 => 10 case 10 => 9 case 11 => 8
    case 12 => 15 case 13 => 14 case 14 => 13 case 15 => 12
    case _ => 0
  }

  function By2(x: nat): nat {
    match x
    case 0 => 2 case 1 => 3 case 2 => 0 case 3 => 1
    case 4 => 6 case 5 => 7 case 6 => 4 case 7 => 5
    case 8 => 10 case 9 => 11 case 10 => 8 case 11 => 9
    case 12 => 14 case 13 => 15 case 14 => 12 case 15 => 13
    case _ => 0
  }

  lemma XorBit(a: nat, b: nat, x: nat, y: nat)
    requires x < 2 && y < 2
    ensures Xor(2 * a + x, 2 * b + y) == 2 * Xor(a, b) + (x + y) % 2
  {
    hide Xor;
    XorHalves(2 * a + x, 2 * b + y);
  }

  /** One hexadecimal digit, by its bits. */
  lemma XorDigit(a: nat, b: nat, p: nat, q: nat, r: nat, s: nat, t: nat, u: nat, v: nat, w: nat)
    requires p < 2 && q < 2 && r < 2 && s < 2 && t < 2 && u < 2 && v < 2 && w < 2
    ensures Xor(16 * a + (8 * p + 4 * q + 2 * r + s), 16 * b + (8 * t + 4 * u + 2 * v + w))
            == 16 * Xor(a, b) + (8 * ((p + t) % 2) + 4 * ((q + u) % 2) + 2 * ((r + v) % 2) + (s + w) % 2)
  {
    hide Xor;
    XorBit(a, b, p, t);
    XorBit(2 * a + p, 2 * b + t, q, u);
    XorBit(2 * (2 * a + p) + q, 2 * (2 * b + t) + u, r, v);
    XorBit(2 * (2 * (2 * a + p) + q) + r, 2 * (2 * (2 * b + t) + u) + v, s, w);
  }

  /** The bits of a digit. */
  lemma BitsOf(x: nat) returns (p: nat, q: nat, r: nat, s: nat)
    requires x < 16
    ensures p < 2 && q < 2 && r < 2 && s < 2 && x == 8 * p + 4 * q + 2 * r + s
  {
    p, q, r, s := x / 8, x / 4 % 2, x / 2 % 2, x % 2;
  }

  lemma XorBy14(a: nat, b: nat, x: nat)
    requires x < 16
    ensures Xor(16 * a + x, 16 * b + 14) == 16 * Xor(a, b) + By14(x)
  {
    hide Xor;
    var p, q, r, s := BitsOf(x);
    XorDigit(a, b, p, q, r, s, 1, 1, 1, 0);
  }

  lemma XorBy13(a: nat, b: nat, x: nat)
    requires x < 16
    ensures Xor(16 * a + x, 16 * b + 13) == 16 * Xor(a, b) + By13(x)
  {
    hide Xor;
    var p, q, r, s := BitsOf(x);
    XorDigit(a, b, p, q, r, s, 1, 1, 0, 1);
  }

  lemma XorBy11(a: nat, b: nat, x: nat)
    requires x < 16
    ensures Xor(16 * a + x, 16 * b + 11) == 16 * Xor(a, b) + By11(x)
  {
    hide Xor;
    var p, q, r, s := BitsOf(x);
    XorDigit(a, b, p, q, r, s, 1, 0, 1, 1);
  }

  lemma XorBy8(a: nat, b: nat, x: nat)
    requires x < 16
    ensures Xor(16 * a + x, 16 * b + 8) == 16 * Xor(a, b) + By8(x)
  {
    hide Xor;
    var p, q, r, s := BitsOf(x);
    XorDigit(a, b, p, q, r, s, 1, 0, 0, 0);
  }

  lemma XorBy3(a: nat, b: nat, x: nat)
    requires x < 16
    ensures Xor(16 * a + x, 16 * b + 3) == 16 * Xor(a, b) + By3(x)
  {
    hide Xor;
    var p, q, r, s := BitsOf(x);
    XorDigit(a, b, p, q, r, s, 0, 0, 1, 1);
  }

  lemma XorBy2(a: nat, b: nat, x: nat)
    requires x < 16
    ensures Xor(16 * a + x, 16 * b + 2) == 16 * Xor(a, b) + By2(x)
  {
    hide Xor;
    var p, q, r, s := BitsOf(x);
    XorDigit(a, b, p, q, r, s, 0, 0, 1, 0);
  }

  lemma XorBy0(a: nat, b: nat, x: nat)
    requires x < 16
    ensures Xor(16 * a + x, 16 * b) == 16 * Xor(a, b) + x
  {
    hide Xor;
    var p, q, r, s := BitsOf(x);
    XorDigit(a, b, p, q, r, s, 0, 0, 0, 0);
  }

  /** A number by its eight hexadecimal digits. */
  function Hex(a: nat, b: nat, c: nat, d: nat, e: nat, f: nat, g: nat, h: nat): nat {
    16 * (16 * (16 * (16 * (16 * (16 * (16 * a + b) + c) + d) + e) + f) + g) + h
  }

  lemma XorPolynomial(a: nat, b: nat, c: nat, d: nat, e: nat, f: nat, g: nat, h: nat)
    requires a < 16 && b < 16 && c < 16 && d < 16 && e < 16 && f < 16 && g < 16 && h < 16
    ensures Xor(Hex(a, b, c, d, e, f, g, h), 0xEDB8_8320)
            == Hex(By14(a), By13(b), By11(c), By8(d), By8(e), By3(f), By2(g), h)
  {
    hide Xor, By14, By13, By11, By8, By3, By2;
    XorZero(0);
    XorBy14(0, 0, a);
    XorBy13(a, 0xE, b);
    XorBy11(16 * a + b, 0xED, c);
    XorBy8(16 * (16 * a + b) + c, 0xEDB, d);
    XorBy8(16 * (16 * (16 * a + b) + c) + d, 0xEDB8, e);
    XorBy3(16 * (16 * (16 * (16 * a + b) + c) + d) + e, 0xE_DB88, f);
    XorBy2(16 * (16 * (16 * (16 * (16 * a + b) + c) + d) + e) + f, 0xED_B883, g);
    XorBy0(16 * (16 * (16 * (16 * (16 * (16 * a + b) + c) + d) + e) + f) + g, 0xEDB_8832, h);
  }

  // ------------------------------------------------------------- CRC-32

  lemma EvenStep(n: nat, r: Register, q: Register)
    requires BitSteps(0xFFFF_FFFF, n) == r && r == 2 * q
    ensures BitSteps(0xFFFF_FFFF, n + 1) == q
  {
    hide Xor;
  }

  lemma OddStep(n: nat, r: Register, q: Register, a: nat, b: nat, c: nat, d: nat, e: nat, f: nat, g: nat, h: nat)
    requires a < 16 && b < 16 && c < 16 && d < 16 && e < 16 && f < 16 && g < 16 && h < 16
    requires BitSteps(0xFFFF_FFFF, n) == r && r == 2 * Hex(a, b, c, d, e, f, g, h) + 1
    requires q == Hex(By14(a), By13(b), By11(c), By8(d), By8(e), By3(f), By2(g), h)
    ensures BitSteps(0xFFFF_FFFF, n + 1) == q
  {
    hide Xor, By14, By13, By11, By8, By3, By2;
    XorPolynomial(a, b, c, d, e, f, g, h);
  }

  lemma Steps0()
    ensures BitSteps(0xFFFF_FFFF, 0) == 0xFFFF_FFFF
  {
  }

  lemma Steps4()
    ensures BitSteps(0xFFFF_FFFF, 4) == 0xB242_0DE3
  {
    hide Xor, BitSteps, BitStep;
    Steps0();
    OddStep(0, 0xFFFF_FFFF, 0x9247_7CDF, 7, 15, 15, 15, 15, 15, 15, 15);
    OddStep(1, 0x9247_7CDF, 0xA49B_3D4F, 4, 9, 2, 3, 11, 14, 6, 15);
    OddStep(2, 0xA49B_3D4F, 0xBFF5_1D87, 5, 2, 4, 13, 9, 14, 10, 7);
    OddStep(3, 0xBFF5_1D87, 0xB242_0DE3, 5, 15, 15, 10, 8, 14, 12, 3);
  }

  lemma Steps8()
    ensures BitSteps(0xFFFF_FFFF, 8) == 0x2DFD_1072
  {
    hide Xor, BitSteps, BitStep;
    Steps4();
    OddStep(4, 0xB242_0DE3, 0xB499_85D1, 5, 9, 2, 1, 0, 6, 15, 1);
    OddStep(5, 0xB499_85D1, 0xB7F4_41C8, 5, 10, 4, 12, 12, 2, 14, 8);
    EvenStep(6, 0xB7F4_41C8, 0x5BFA_20E4);
    EvenStep(7, 0x5BFA_20E4, 0x2DFD_1072);
  }

  lemma Steps12()
    ensures BitSteps(0xFFFF_FFFF, 12) == 0x39B1_F1CF
  {
    hide Xor, BitSteps, BitStep;
    Steps8();
    EvenStep(8, 0x2DFD_1072, 0x16FE_8839);
    OddStep(9, 0x16FE_8839, 0xE6C7_C73C, 0, 11, 7, 15, 4, 4, 1, 12);
    EvenStep(10, 0xE6C7_C73C, 0x7363_E39E);
    EvenStep(11, 0x7363_E39E, 0x39B1_F1CF);
  }

  lemma Steps16()
    ensures BitSteps(0xFFFF_FFFF, 16) == 0xBE26_ED00
  {
    hide Xor, BitSteps, BitStep;
    Steps12();
    OddStep(12, 0x39B1_F1CF, 0xF160_7BC7, 1, 12, 13, 8, 15, 8, 14, 7);
    OddStep(13, 0xF160_7BC7, 0x9508_BEC3, 7, 8, 11, 0, 3, 13, 14, 3);
    OddStep(14, 0x9508_BEC3, 0xA73C_DC41, 4, 10, 8, 4, 5, 15, 6, 1);
    OddStep(15, 0xA73C_DC41, 0xBE26_ED00, 5, 3, 9, 14, 6, 14, 2, 0);
  }

  lemma Steps20()
    ensures BitSteps(0xFFFF_FFFF, 20) == 0x0BE2_6ED0
  {
    hide Xor, BitSteps, BitStep;
    Steps16();
    EvenStep(16, 0xBE26_ED00, 0x5F13_7680);
    EvenStep(17, 0x5F13_7680, 0x2F89_BB40);
    EvenStep(18, 0x2F89_BB40, 0x17C4_DDA0);
    EvenStep(19, 0x17C4_DDA0, 0x0BE2_6ED0);
  }

  lemma Steps24()
    ensures BitSteps(0xFFFF_FFFF, 24) == 0x00BE_26ED
  {
    hide Xor, BitSteps, BitStep;
    Steps20();
    EvenStep(20, 0x0BE2_6ED0, 0x05F1_3768);
    EvenStep(21, 0x05F1_3768, 0x02F8_9BB4);
    EvenStep(22, 0x02F8_9BB4, 0x017C_4DDA);
    EvenStep(23, 0x017C_4DDA, 0x00BE_26ED);
  }

  lemma Steps28()
    ensures BitSteps(0xFFFF_FFFF, 28) == 0x86D8_30BA
  {
    hide Xor, BitSteps, BitStep;
    Steps24();
    OddStep(24, 0x00BE_26ED, 0xEDE7_9056, 0, 0, 5, 15, 1, 3, 7, 6);
    EvenStep(25, 0xEDE7_9056, 0x76F3_C82B);
    OddStep(26, 0x76F3_C82B, 0xD6C1_6735, 3, 11, 7, 9, 14, 4, 1, 5);
    OddStep(27, 0xD6C1_6735, 0x86D8_30BA, 6, 11, 6, 0, 11, 3, 9, 10);
  }

  lemma Steps32()
    ensures BitSteps(0xFFFF_FFFF, 32) == 0xDEBB_20E3
  {
    hide Xor, BitSteps, BitStep;
    Steps28();
    EvenStep(28, 0x86D8_30BA, 0x436C_185D);
    OddStep(29, 0x436C_185D, 0xCC0E_8F0E, 2, 1, 11, 6, 0, 12, 2, 14);
    EvenStep(30, 0xCC0E_8F0E, 0x6607_4787);
    OddStep(31, 0x6607_4787, 0xDEBB_20E3, 3, 3, 0, 3, 10, 3, 12, 3);
  }

  /** The residue law: a string with its own checksum behind it always sums to
      one value, and the empty string to zero. */
  lemma Residue(s: seq<byte>)
    ensures Crc32(s + Le(Crc32(s), 4)) == 0x2144_DF1C && Crc32([]) == 0
  {
    hide Xor, BitSteps, CrcUpdate, Le;
    Powers();
    Widths();
    var r := CrcUpdate(CRC_START, s);
    CrcUpdateConcat(CRC_START, s, Le(Crc32(s), 4));
    CrcOf(s);
    CrcOf([]);
    XorBound(r, 0xFFFF_FFFF, 32);
    CrcOfWord(r, Crc32(s), 4);
    XorCancels(r, 0xFFFF_FFFF);
    Steps32();
    Complements();
  }

  lemma XorCancels(a: nat, b: nat)
    ensures Xor(a, Xor(a, b)) == b
  {
    hide Xor;
    XorCommutes(a, b);
    XorCommutes(a, Xor(b, a));
    XorUndoes(b, a);
  }

  /** The complement of a register, digit by digit. */
  lemma ByFifteen(a: nat, b: nat, x: nat)
    requires x < 16
    ensures Xor(16 * a + x, 16 * b + 15) == 16 * Xor(a, b) + (15 - x)
  {
    hide Xor;
    var p, q, r, s := BitsOf(x);
    XorDigit(a, b, p, q, r, s, 1, 1, 1, 1);
  }

  lemma Complements()
    ensures Xor(0xFFFF_FFFF, 0xFFFF_FFFF) == 0 && Xor(0xDEBB_20E3, 0xFFFF_FFFF) == 0x2144_DF1C
  {
    hide Xor;
    XorZero(0);
    XorZero(0xFFFF_FFFF);
    XorCancels(0xFFFF_FFFF, 0);
    ByFifteen(0, 0, 0xD);
    ByFifteen(0xD, 0xF, 0xE);
    ByFifteen(0xDE, 0xFF, 0xB);
    ByFifteen(0xDEB, 0xFFF, 0xB);
    ByFifteen(0xDEBB, 0xFFFF, 2);
    ByFifteen(0xD_EBB2, 0xF_FFFF, 0);
    ByFifteen(0xDE_BB20, 0xFF_FFFF, 0xE);
    ByFifteen(0xDEB_B20E, 0xFFF_FFFF, 3);
  }

  // ------------------------------------------------------------- FNV-1a

  /** The published values of "" and "a" at both widths. */
  lemma FnvValues()
    ensures Fnv1a(FNV32, []) == 0x811C_9DC5 && Fnv1a(FNV32, [0x61]) == 0xE40C_292C
    ensures Fnv1a(FNV64, []) == 0xCBF2_9CE4_8422_2325 && Fnv1a(FNV64, [0x61]) == 0xAF63_DC4C_8601_EC8C
  {
    hide Xor;
    LowDigits();
    OneByte(FNV32, 0x61);
    OneByte(FNV64, 0x61);
    assert 0x811C_9DA4 * 0x0100_0193 == 0x811D68 * 0x1_0000_0000 + 0xE40C_292C;
    assert 0xCBF2_9CE4_8422_2344 * 0x100_0000_01B3 == 0xCBF29CE5DE * 0x1_0000_0000_0000_0000 + 0xAF63_DC4C_8601_EC8C;
  }

  lemma OneByte(p: FnvParameters, b: byte)
    requires IsFnv(p)
    ensures Fnv1a(p, []) == p.offset && Fnv1a(p, [b]) == (Xor(p.offset, b) * p.prime) % p.modulus
  {
    hide Xor;
    assert [b][..0] == [];
  }

  lemma LowDigits()
    ensures Xor(0x811C_9DC5, 0x61) == 0x811C_9DA4 && Xor(0xCBF2_9CE4_8422_2325, 0x61) == 0xCBF2_9CE4_8422_2344
  {
    hide Xor;
    XorZero(0x81_1C9D);
    XorDigit(0x81_1C9D, 0, 1, 1, 0, 0, 0, 1, 1, 0);
    XorDigit(0x811_C9DC, 6, 0, 1, 0, 1, 0, 0, 0, 1);
    XorZero(0xCB_F29C_E484_2223);
    XorDigit(0xCB_F29C_E484_2223, 0, 0, 0, 1, 0, 0, 1, 1, 0);
    XorDigit(0xCBF_29CE_4842_2232, 6, 0, 1, 0, 1, 0, 0, 0, 1);
  }
}
