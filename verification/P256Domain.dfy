/** The numbers of P-256 (FIPS 186-4, section D.1.2.3) that kernel/ecdsa.c keeps as byte strings. */
module P256Domain {
  import opened Words
  import opened BigNat
  import opened EcAlgebra
  import opened EcCurve
  import opened Ecdsa

  const GX: seq<u8> := [0x6B, 0x17, 0xD1, 0xF2, 0xE1, 0x2C, 0x42, 0x47,
                        0xF8, 0xBC, 0xE6, 0xE5, 0x63, 0xA4, 0x40, 0xF2,
                        0x77, 0x03, 0x7D, 0x81, 0x2D, 0xEB, 0x33, 0xA0,
                        0xF4, 0xA1, 0x39, 0x45, 0xD8, 0x98, 0xC2, 0x96]

  const GY: seq<u8> := [0x4F, 0xE3, 0x42, 0xE2, 0xFE, 0x1A, 0x7F, 0x9B,
                        0x8E, 0xE7, 0xEB, 0x4A, 0x7C, 0x0F, 0x9E, 0x16,
                        0x2B, 0xCE, 0x33, 0x57, 0x6B, 0x31, 0x5E, 0xCE,
                        0xCB, 0xB6, 0x40, 0x68, 0x37, 0xBF, 0x51, 0xF5]

  /** The base point. */
  function Base(): Pt {
    Pt(BeVal(GX), BeVal(GY), 1)
  }

  /** The coefficient b of the curve, which the formulas do not need. */
  const CURVE_B := 0x5ac635d8_aa3a93e7_b3ebbd55_769886bc_651d06b0_cc53b0f6_3bce3c3e_27d2604b

  // ---------------------------------------------------------------- the field prime

  /** Four bytes, most significant first. */
  function Word(be: seq<int>, i: nat): int
    requires i + 4 <= |be|
  {
    0x100_0000 * be[i] + 0x1_0000 * be[i + 1] + 0x100 * be[i + 2] + be[i + 3]
  }

  /** Eight 32-bit words, most significant first. */
  function Words8(be: seq<int>): int
    requires |be| == 32
  {
    ((((((Word(be, 0) * 0x1_0000_0000 + Word(be, 4)) * 0x1_0000_0000 + Word(be, 8)) * 0x1_0000_0000 + Word(be, 12))
       * 0x1_0000_0000 + Word(be, 16)) * 0x1_0000_0000 + Word(be, 20)) * 0x1_0000_0000 + Word(be, 24)) * 0x1_0000_0000
    + Word(be, 28)
  }

  /** The value of four more bytes. */
  lemma BeWord(be: seq<u8>, i: nat)
    requires i + 4 <= |be|
    ensures BeVal(be[..i + 4])
            == BeVal(be[..i]) * 0x1_0000_0000 + Word(be, i)
  {
    BeByte(be, i);
    BeByte(be, i + 1);
    BeByte(be, i + 2);
    BeByte(be, i + 3);
    hide BeVal;
  }

  lemma BeByte(be: seq<u8>, i: nat)
    requires i < |be|
    ensures BeVal(be[..i + 1]) == BeVal(be[..i]) * 256 + be[i]
  {
    assert be[..i + 1][..i] == be[..i];
  }

  lemma BeNone(be: seq<u8>)
    ensures BeVal(be[..0]) == 0
  {}

  /** All 32 bytes of a string, eight at a time. */
  lemma BeWhole(be: seq<u8>)
    requires |be| == 32
    ensures BeVal(be) == Words8(be)
  {
    hide BeVal, Word;
    BeNone(be);
    BeWord(be, 0);
    BeWord(be, 4);
    BeWord(be, 8);
    BeWord(be, 12);
    BeWord(be, 16);
    BeWord(be, 20);
    BeWord(be, 24);
    BeWord(be, 28);
    assert be[..32] == be;
  }

  lemma DomainPowers()
    ensures Pow2(96) == 0x1_00000000_00000000_00000000
    ensures Pow2(192) == 0x1_00000000_00000000_00000000_00000000_00000000_00000000
    ensures Pow2(224) == 0x1_00000000_00000000_00000000_00000000_00000000_00000000_00000000
    ensures Pow2(256) == 0x1_00000000_00000000_00000000_00000000_00000000_00000000_00000000_00000000
  {
    hide Pow2;
    Pow2Wide();
    Pow2Sum(32, 64, 96, 0x1_00000000, 0x1_00000000_00000000);
    Pow2Sum(96, 96, 192, 0x1_00000000_00000000_00000000, 0x1_00000000_00000000_00000000);
    Pow2Sum(192, 32, 224, 0x1_00000000_00000000_00000000_00000000_00000000_00000000, 0x1_00000000);
    Pow2Sum(192, 64, 256, 0x1_00000000_00000000_00000000_00000000_00000000_00000000, 0x1_00000000_00000000);
  }

  /** The modulus of every field and point operation is the P-256 prime. */
  lemma PrimeIs()
    ensures P256() == Pow2(256) - Pow2(224) + Pow2(192) + Pow2(96) - 1
  {
    PrimeValue();
    DomainPowers();
    hide Pow2, P256;
  }

  lemma PrimeValue()
    ensures P256() == 0xffffffff_00000001_00000000_00000000_00000000_ffffffff_ffffffff_ffffffff
  {
    hide BeVal;
    BeWhole(P256_P);
  }

  // ---------------------------------------------------------------- the base point

  lemma BaseValue()
    ensures Base() == Pt(0x6b17d1f2_e12c4247_f8bce6e5_63a440f2_77037d81_2deb33a0_f4a13945_d898c296,
                         0x4fe342e2_fe1a7f9b_8ee7eb4a_7c0f9e16_2bce3357_6b315ece_cbb64068_37bf51f5, 1)
  {
    GxValue();
    GyValue();
    hide BeVal;
  }

  lemma GxValue()
    ensures BeVal(GX) == 0x6b17d1f2_e12c4247_f8bce6e5_63a440f2_77037d81_2deb33a0_f4a13945_d898c296
  {
    hide BeVal;
    BeWhole(GX);
  }

  lemma GyValue()
    ensures BeVal(GY) == 0x4fe342e2_fe1a7f9b_8ee7eb4a_7c0f9e16_2bce3357_6b315ece_cbb64068_37bf51f5
  {
    hide BeVal;
    BeWhole(GY);
  }

  /** The base point lies on the curve with the standard's b. */
  lemma BaseOnCurve()
    ensures OnCurve(Base(), CURVE_B, P256())
  {
    BaseValue();
    PrimeValue();
    hide Base, P256;
  }

  /** pt_mul of the base point by 2, in the Jacobian coordinates the code computes. */
  lemma BaseTwice()
    ensures Mul(Base(), 2, P256()) == Pt(0x9a978f59_acd1b5ad_570e7d52_dcfcde43_804b4227_4f61ddcf_1e7d8483_91d6c70f,
                                         0x4126885e_7f786af9_05338238_e5346d5f_e77fc463_88668bd0_fd59be31_90d2f5d1,
                                         0x9fc685c5_fc34ff37_1dcfd694_f81f3c2c_579c66ae_d662bd9d_976c80d0_6f7ea3ea)
  {
    BaseValue();
    PrimeValue();
    MulTwo(Base(), P256());
    TwiceValue();
    hide Mul, Dbl, Base, P256;
  }

  lemma TwiceValue()
    ensures Dbl(Pt(0x6b17d1f2_e12c4247_f8bce6e5_63a440f2_77037d81_2deb33a0_f4a13945_d898c296,
                   0x4fe342e2_fe1a7f9b_8ee7eb4a_7c0f9e16_2bce3357_6b315ece_cbb64068_37bf51f5, 1),
                0xffffffff_00000001_00000000_00000000_00000000_ffffffff_ffffffff_ffffffff)
            == Pt(0x9a978f59_acd1b5ad_570e7d52_dcfcde43_804b4227_4f61ddcf_1e7d8483_91d6c70f,
                  0x4126885e_7f786af9_05338238_e5346d5f_e77fc463_88668bd0_fd59be31_90d2f5d1,
                  0x9fc685c5_fc34ff37_1dcfd694_f81f3c2c_579c66ae_d662bd9d_976c80d0_6f7ea3ea)
  {}

  lemma MulTwo(p: Pt, m: nat)
    requires m > 0
    ensures Mul(p, 2, m) == Dbl(p, m)
  {
    assert Mul(p, 0, m) == INFINITY;
    assert Mul(p, 1, m) == p;
    hide Dbl;
  }
}
