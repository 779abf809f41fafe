/** The constants of RFC 8439, section 2.5, and its worked example on the specification. */
module Poly1305Vector {
  import opened Words
  import opened LittleEndian
  import opened Poly1305Limbs
  import opened Poly1305Spec

  /** The prime is 2^130 - 5 and the tag is taken modulo 2^128. */
  lemma PrimeIs()
    ensures P == Pow2(130) - 5 && TWO128 == Pow2(128)
  {
    hide Pow2;
    Pow2Wide();
    Pow2Values();
    Pow2Sum(64, 64, 128, 0x1_0000_0000_0000_0000, 0x1_0000_0000_0000_0000);
    Pow2Sum(128, 2, 130, 0x1_0000_0000_0000_0000_0000_0000_0000_0000, 4);
  }

  /** Clamping clears the top four bits of every word of the key and the bottom two of all but the
      first. */
  lemma ClampWords(w0: u32, w1: u32, w2: u32, w3: u32)
    ensures
      And(((w3 * 0x1_0000_0000 + w2) * 0x1_0000_0000 + w1) * 0x1_0000_0000 + w0, CLAMP)
      == ((w3 / 4 % 0x400_0000 * 4 * 0x1_0000_0000 + w2 / 4 % 0x400_0000 * 4) * 0x1_0000_0000
          + w1 / 4 % 0x400_0000 * 4) * 0x1_0000_0000 + w0 % 0x1000_0000
  {
    hide And, Pow2;
    Pow2Words();
    LowClamp(w0);
    HighClamp(w1);
    HighClamp(w2);
    HighClamp(w3);
    AndSplit(w3, w2, 0xFFF_FFFC, 0xFFF_FFFC, 32);
    AndSplit(w3 * 0x1_0000_0000 + w2, w1, 0xFFF_FFFC_0FFF_FFFC, 0xFFF_FFFC, 32);
    AndSplit((w3 * 0x1_0000_0000 + w2) * 0x1_0000_0000 + w1, w0, 0xFFF_FFFC_0FFF_FFFC_0FFF_FFFC, 0xFFF_FFFF, 32);
  }

  lemma LowClamp(w: u32)
    ensures And(w, 0xFFF_FFFF) == w % 0x1000_0000
  {
    hide And, Pow2;
    Pow2Words();
    Pow2Values();
    Pow2Sum(20, 8, 28, 0x10_0000, 0x100);
    AndMask(w, 28);
  }

  lemma HighClamp(w: u32)
    ensures And(w, 0xFFF_FFFC) == w / 4 % 0x400_0000 * 4
  {
    hide And, Pow2;
    Pow2Words();
    Pow2Values();
    AndSplit(w / 4, w % 4, 0x3FF_FFFF, 0, 2);
    AndMask(w / 4, 26);
    AndZero(w % 4);
  }

  // ---------------------------------------------------------------- section 2.5.2

  const KEY: seq<u8> := [0x85, 0xD6, 0xBE, 0x78, 0x57, 0x55, 0x6D, 0x33, 0x7F, 0x44, 0x52, 0xFE, 0x42, 0xD5, 0x06, 0xA8,
                         0x01, 0x03, 0x80, 0x8A, 0xFB, 0x0D, 0xB2, 0xFD, 0x4A, 0xBF, 0xF6, 0xAF, 0x41, 0x49, 0xF5, 0x1B]

  /** "Cryptographic Forum Research Group". */
  const MESSAGE: seq<u8> := [0x43, 0x72, 0x79, 0x70, 0x74, 0x6F, 0x67, 0x72, 0x61, 0x70, 0x68, 0x69, 0x63, 0x20, 0x46, 0x6F,
                             0x72, 0x75, 0x6D, 0x20, 0x52, 0x65, 0x73, 0x65, 0x61, 0x72, 0x63, 0x68, 0x20, 0x47, 0x72, 0x6F,
                             0x75, 0x70]

  /** Sixteen bytes as four words. */
  lemma LeSixteen(b: seq<u8>)
    requires |b| == 16
    ensures LeVal(b) == Word4(b, 0) + 0x1_0000_0000 * Word4(b, 4) + 0x1_0000_0000_0000_0000 * Word4(b, 8)
                        + 0x1_0000_0000_0000_0000_0000_0000 * Word4(b, 12)
  {
    hide LeFrom, Word4;
    LeWord(b, 0);
    LeWord(b, 4);
    LeWord(b, 8);
    LeWord(b, 12);
    LeEnd(b);
  }

  lemma LeWord(b: seq<u8>, i: nat)
    requires i + 4 <= |b|
    ensures LeFrom(b, i) == Word4(b, i) + 0x1_0000_0000 * LeFrom(b, i + 4)
  {
    LeFour(b, i);
    hide LeFrom;
  }

  lemma KeyParts()
    ensures KeyR(KEY) == 0x806D5400E52447C036D555408BED685 && KeyS(KEY) == 0x1BF54941AFF6BF4AFDB20DFB8A800301
  {
    hide And, LeVal;
    var a, b := KEY[..16], KEY[16..];
    assert a == [0x85, 0xD6, 0xBE, 0x78, 0x57, 0x55, 0x6D, 0x33, 0x7F, 0x44, 0x52, 0xFE, 0x42, 0xD5, 0x06, 0xA8];
    assert b == [0x01, 0x03, 0x80, 0x8A, 0xFB, 0x0D, 0xB2, 0xFD, 0x4A, 0xBF, 0xF6, 0xAF, 0x41, 0x49, 0xF5, 0x1B];
    LeSixteen(a);
    LeSixteen(b);
    ClampWords(0x78BED685, 0x336D5557, 0xFE52447F, 0xA806D542);
  }

  lemma MessageParts()
    ensures LeVal(MESSAGE[0..16]) == 0x6F4620636968706172676F7470797243 && LeVal(MESSAGE[16..32]) == 0x6F7247206863726165736552206D7572
    ensures LeVal(MESSAGE[32..]) == 0x7075 && |MESSAGE[32..]| == 2
  {
    var a, b, c := MESSAGE[0..16], MESSAGE[16..32], MESSAGE[32..];
    assert a == [0x43, 0x72, 0x79, 0x70, 0x74, 0x6F, 0x67, 0x72, 0x61, 0x70, 0x68, 0x69, 0x63, 0x20, 0x46, 0x6F];
    assert b == [0x72, 0x75, 0x6D, 0x20, 0x52, 0x65, 0x73, 0x65, 0x61, 0x72, 0x63, 0x68, 0x20, 0x47, 0x72, 0x6F];
    assert c == [0x75, 0x70];
    LeSixteen(a);
    LeSixteen(b);
    assert LeFrom(c, 0) == c[0] + 256 * LeFrom(c, 1) && LeFrom(c, 1) == c[1] + 256 * LeFrom(c, 2);
    hide LeFrom;
  }

  lemma Powers()
    ensures Pow2(8 * 16) == 0x1_0000_0000_0000_0000_0000_0000_0000_0000 && Pow2(8 * 2) == 0x1_0000
  {
    PrimeIs();
    Pow2Words();
    hide Pow2;
  }

  lemma AbsorbIs(a: int, block: seq<u8>, r: int, v: int, bit: int, out: int)
    requires LeVal(block) == v && Pow2(8 * |block|) == bit && (a + v + bit) * r % P == out
    ensures Absorb(a, block, r) == out
  {
    hide LeVal, Pow2;
  }

  lemma TwoBlocks()
    ensures Blocks(MESSAGE, 2, 0x806D5400E52447C036D555408BED685) == 0x2D8ADAF23B0337FA7CCCFB4EA344B30DE
  {
    hide LeVal, Pow2, Absorb;
    MessageParts();
    Powers();
    var r := 0x806D5400E52447C036D555408BED685;
    AbsorbIs(0, MESSAGE[0..16], r, 0x6F4620636968706172676F7470797243, 0x1_0000_0000_0000_0000_0000_0000_0000_0000, 0x2C88C77849D64AE9147DDEB88E69C83FC);
    AbsorbIs(0x2C88C77849D64AE9147DDEB88E69C83FC, MESSAGE[16..32], r, 0x6F7247206863726165736552206D7572,
             0x1_0000_0000_0000_0000_0000_0000_0000_0000, 0x2D8ADAF23B0337FA7CCCFB4EA344B30DE);
    assert Blocks(MESSAGE, 0, r) == 0;
    assert Blocks(MESSAGE, 1, r) == Absorb(0, MESSAGE[0..16], r);
    assert Blocks(MESSAGE, 2, r) == Absorb(Blocks(MESSAGE, 1, r), MESSAGE[16..32], r);
  }

  /** The tag of the standard's example. */
  lemma Example()
    ensures Tag(KEY, MESSAGE) == 0xA927010CAF8B2BC2C6365130C11D06A8
  {
    hide LeVal, Pow2, And, KeyR, KeyS, Blocks, Absorb;
    KeyParts();
    MessageParts();
    Powers();
    TwoBlocks();
    AbsorbIs(0x2D8ADAF23B0337FA7CCCFB4EA344B30DE, MESSAGE[32..], 0x806D5400E52447C036D555408BED685, 0x7075, 0x1_0000, 0x28D31B7CAFF946C77C8844335369D03A7);
  }
}
