/** Arithmetic modulo 2^130 - 5 in five 26-bit limbs, as kernel/poly1305.c does it in 32-bit and
    64-bit words. */
module Poly1305Limbs {
  import opened Words
  import opened LittleEndian

  const P := 0x3_FFFF_FFFF_FFFF_FFFF_FFFF_FFFF_FFFF_FFFB
  const TWO128 := 0x1_0000_0000_0000_0000_0000_0000_0000_0000

  /** The number five coefficients stand for in radix 2^26. */
  function Val26(a0: int, a1: int, a2: int, a3: int, a4: int): int {
    a0 + 0x400_0000 * a1 + 0x10_0000_0000_0000 * a2 + 0x4000_0000_0000_0000_0000 * a3
    + 0x100_0000_0000_0000_0000_0000_0000 * a4
  }

  function HVal(h: seq<int>): int
    requires |h| == 5
  {
    Val26(h[0], h[1], h[2], h[3], h[4])
  }

  /** x >> 26 and x & 0x3ffffff. */
  function Hi26(x: nat): nat {
    x / 0x400_0000
  }

  function Lo26(x: nat): (r: nat)
    ensures r < 0x400_0000
  {
    Mask26(x);
    And(x, 0x3FF_FFFF)
  }

  lemma Mask26(x: nat)
    ensures And(x, 0x3FF_FFFF) == x % 0x400_0000
  {
    Pow2Words();
    AndMask(x, 26);
  }

  lemma Cut26(x: nat)
    ensures x == Hi26(x) * 0x400_0000 + Lo26(x)
  {
    Mask26(x);
  }

  // ---------------------------------------------------------------- loading

  /** Sixteen bytes as four loaded words. */
  lemma LeSixteen(b: seq<u8>, i: nat)
    requires i + 16 <= |b|
    ensures LeFrom(b, i) == Load32(b, i) + 0x1_0000_0000 * Load32(b, i + 4) + 0x1_0000_0000_0000_0000 * Load32(b, i + 8)
                            + 0x1_0000_0000_0000_0000_0000_0000 * Load32(b, i + 12) + TWO128 * LeFrom(b, i + 16)
  {
    hide LeFrom, Load32;
    LeFour(b, i);
    LeFour(b, i + 4);
    LeFour(b, i + 8);
    LeFour(b, i + 12);
    Load32Is(b, i);
    Load32Is(b, i + 4);
    Load32Is(b, i + 8);
    Load32Is(b, i + 12);
  }

  /** The words that straddle the 26-bit limbs 1, 2 and 3, before their masks. */
  function Straddle1(t0: u32, t1: u32): u32 { Or32(Shr(t0, 26), Shl32(t1, 6)) }
  function Straddle2(t1: u32, t2: u32): u32 { Or32(Shr(t1, 20), Shl32(t2, 12)) }
  function Straddle3(t2: u32, t3: u32): u32 { Or32(Shr(t2, 14), Shl32(t3, 18)) }

  lemma Straddles(t0: u32, t1: u32, t2: u32, t3: u32)
    ensures Straddle1(t0, t1) % 0x400_0000 == t0 / 0x400_0000 + 0x40 * (t1 % 0x10_0000)
    ensures Straddle2(t1, t2) % 0x400_0000 == t1 / 0x10_0000 + 0x1000 * (t2 % 0x4000)
    ensures Straddle3(t2, t3) % 0x400_0000 == t2 / 0x4000 + 0x4_0000 * (t3 % 0x100)
  {
    hide Or32, Shl32, Pow2;
    Pow2Words();
    Pack32(Shr(t0, 26), t1, 6, 0x40, 0x400_0000);
    Pack32(Shr(t1, 20), t2, 12, 0x1000, 0x10_0000);
    Pack32(Shr(t2, 14), t3, 18, 0x4_0000, 0x4000);
    CutHigh(t0 / 0x400_0000, t1 % 0x400_0000, 0x40, 0x10_0000, 0x40);
    CutHigh(t1 / 0x10_0000, t2 % 0x10_0000, 0x1000, 0x4000, 0x40);
    CutHigh(t2 / 0x4000, t3 % 0x4000, 0x4_0000, 0x100, 0x40);
    ModMod(t1, 0x10_0000, 0x40);
    ModMod(t2, 0x4000, 0x40);
    ModMod(t3, 0x100, 0x40);
  }

  lemma ModMod(x: nat, q: nat, c: nat)
    requires q > 0 && c > 0
    ensures q * c > 0 && x % (q * c) % q == x % q
  {
    MulPositive(q, c);
    var h := x / (q * c);
    assert x == h * (q * c) + x % (q * c);
    assert h * (q * c) == (h * c) * q;
    ModAddMul(x % (q * c), h * c, q);
  }

  lemma CutHigh(low: nat, x: nat, p: nat, q: nat, c: nat)
    requires low < p && q > 0 && c > 0 && p * q == 0x400_0000
    ensures (low + x * p) % 0x400_0000 == low + p * (x % q)
  {
    var h, l := x / q, x % q;
    assert x == h * q + l;
    assert x * p == h * 0x400_0000 + l * p by {
      assert (h * q) * p == h * (p * q);
    }
    MulMono(l, q - 1, p);
    assert (q - 1) * p == p * q - p;
    assert 0 <= l * p;
    DivModUnique(low + x * p, 0x400_0000, h, low + l * p);
  }

  /** Four loaded words cut into five limbs. */
  lemma MessageLimbs(t0: u32, t1: u32, t2: u32, t3: u32)
    ensures Val26(Lo26(t0), Lo26(Straddle1(t0, t1)), Lo26(Straddle2(t1, t2)), Lo26(Straddle3(t2, t3)), Shr(t3, 8))
            == t0 + 0x1_0000_0000 * t1 + 0x1_0000_0000_0000_0000 * t2 + 0x1_0000_0000_0000_0000_0000_0000 * t3
    ensures Shr(t3, 8) < 0x100_0000
  {
    hide Pow2, Straddle1, Straddle2, Straddle3, Lo26;
    Straddles(t0, t1, t2, t3);
    Mask26(t0);
    Mask26(Straddle1(t0, t1));
    Mask26(Straddle2(t1, t2));
    Mask26(Straddle3(t2, t3));
    Lo26Is(t0);
    Lo26Is(Straddle1(t0, t1));
    Lo26Is(Straddle2(t1, t2));
    Lo26Is(Straddle3(t2, t3));
    Pow2Words();
    LimbTotal(t0, t1, t2, t3);
  }

  lemma Lo26Is(x: nat)
    ensures Lo26(x) == x % 0x400_0000
  {
    Mask26(x);
  }

  lemma LimbTotal(t0: u32, t1: u32, t2: u32, t3: u32)
    ensures Val26(t0 % 0x400_0000, t0 / 0x400_0000 + 0x40 * (t1 % 0x10_0000), t1 / 0x10_0000 + 0x1000 * (t2 % 0x4000),
                  t2 / 0x4000 + 0x4_0000 * (t3 % 0x100), t3 / 0x100)
            == t0 as int + 0x1_0000_0000 * t1 as int + 0x1_0000_0000_0000_0000 * t2 as int + 0x1_0000_0000_0000_0000_0000_0000 * t3 as int
  {}

  /** The bit past the block: 2^24 in the top limb is 2^128. */
  lemma HighBit(x: u32)
    requires x < 0x100_0000
    ensures Or32(x, 0x100_0000) == x + 0x100_0000 && Or32(x, 0) == x
  {
    Pow2Words();
    OrDisjoint(1, x, 24);
  }

  // ---------------------------------------------------------------- clamping r

  /** The mask of section 2.5 of RFC 8439. */
  const CLAMP := 0x0FFF_FFFC_0FFF_FFFC_0FFF_FFFC_0FFF_FFFF

  lemma MaskedLimb(x: u32, mask: nat)
    requires mask < 0x400_0000
    ensures And(x, mask) == And(x % 0x400_0000, mask)
  {
    hide And;
    Pow2Words();
    AndSplit(x / 0x400_0000, x % 0x400_0000, 0, mask, 26);
    AndZero(x / 0x400_0000);
  }

  lemma AndLimbs(a0: nat, a1: nat, a2: nat, a3: nat, a4: nat, m0: nat, m1: nat, m2: nat, m3: nat, m4: nat)
    requires a0 < 0x400_0000 && a1 < 0x400_0000 && a2 < 0x400_0000 && a3 < 0x400_0000
    requires m0 < 0x400_0000 && m1 < 0x400_0000 && m2 < 0x400_0000 && m3 < 0x400_0000
    ensures 0 <= Val26(a0, a1, a2, a3, a4) && 0 <= Val26(m0, m1, m2, m3, m4)
    ensures And(Val26(a0, a1, a2, a3, a4), Val26(m0, m1, m2, m3, m4))
            == Val26(And(a0, m0), And(a1, m1), And(a2, m2), And(a3, m3), And(a4, m4))
  {
    hide And, Pow2;
    Pow2Words();
    AndSplit(a4, a3, m4, m3, 26);
    AndSplit(a4 * 0x400_0000 + a3, a2, m4 * 0x400_0000 + m3, m2, 26);
    AndSplit(a4 * 0x10_0000_0000_0000 + a3 * 0x400_0000 + a2, a1, m4 * 0x10_0000_0000_0000 + m3 * 0x400_0000 + m2, m1, 26);
    AndSplit(a4 * 0x4000_0000_0000_0000_0000 + a3 * 0x10_0000_0000_0000 + a2 * 0x400_0000 + a1, a0,
             m4 * 0x4000_0000_0000_0000_0000 + m3 * 0x10_0000_0000_0000 + m2 * 0x400_0000 + m1, m0, 26);
  }

  /** The five masks of poly1305_init are the one mask of the standard. */
  lemma ClampLimbs(t0: u32, t1: u32, t2: u32, t3: u32)
    ensures
      var k := t0 + 0x1_0000_0000 * t1 + 0x1_0000_0000_0000_0000 * t2 + 0x1_0000_0000_0000_0000_0000_0000 * t3;
      Val26(And(t0, 0x3FF_FFFF), And(Straddle1(t0, t1), 0x3FF_FF03), And(Straddle2(t1, t2), 0x3FF_C0FF),
            And(Straddle3(t2, t3), 0x3F0_3FFF), And(Shr(t3, 8), 0xF_FFFF))
      == And(k, CLAMP)
  {
    hide And, Straddle1, Straddle2, Straddle3, Shr, Lo26;
    MessageLimbs(t0, t1, t2, t3);
    Lo26Is(t0);
    Lo26Is(Straddle1(t0, t1));
    Lo26Is(Straddle2(t1, t2));
    Lo26Is(Straddle3(t2, t3));
    MaskedLimb(t0, 0x3FF_FFFF);
    MaskedLimb(Straddle1(t0, t1), 0x3FF_FF03);
    MaskedLimb(Straddle2(t1, t2), 0x3FF_C0FF);
    MaskedLimb(Straddle3(t2, t3), 0x3F0_3FFF);
    AndLimbs(Lo26(t0), Lo26(Straddle1(t0, t1)), Lo26(Straddle2(t1, t2)), Lo26(Straddle3(t2, t3)), Shr(t3, 8),
             0x3FF_FFFF, 0x3FF_FF03, 0x3FF_C0FF, 0x3F0_3FFF, 0xF_FFFF);
  }

  // ---------------------------------------------------------------- the product

  /** What a clamped r allows; the limbs of h after a block, and with the next block added. */
  predicate Clamped(r: seq<int>) {
    |r| == 5 && 0 <= r[0] < 0x400_0000 && 0 <= r[1] < 0x400_0000 && 0 <= r[2] < 0x400_0000 && 0 <= r[3] < 0x400_0000 && 0 <= r[4] < 0x10_0000
  }

  predicate Lazy(h: seq<int>) {
    && |h| == 5
    && 0 <= h[0] < 0x400_0000 && 0 <= h[1] < 0x400_0040 && 0 <= h[2] < 0x400_0000
    && 0 <= h[3] < 0x400_0000 && 0 <= h[4] < 0x400_0000
  }

  predicate Fed(h: seq<int>) {
    && |h| == 5
    && 0 <= h[0] < 0x800_0040 && 0 <= h[1] < 0x800_0040 && 0 <= h[2] < 0x800_0040
    && 0 <= h[3] < 0x800_0040 && 0 <= h[4] < 0x800_0040
  }

  function D0(h: seq<int>, r: seq<int>): int
    requires |h| == 5 && |r| == 5
  {
    Prod(h[0], r[0]) + Prod(h[1], 5 * r[4]) + Prod(h[2], 5 * r[3]) + Prod(h[3], 5 * r[2]) + Prod(h[4], 5 * r[1])
  }

  function D1(h: seq<int>, r: seq<int>): int
    requires |h| == 5 && |r| == 5
  {
    Prod(h[0], r[1]) + Prod(h[1], r[0]) + Prod(h[2], 5 * r[4]) + Prod(h[3], 5 * r[3]) + Prod(h[4], 5 * r[2])
  }

  function D2(h: seq<int>, r: seq<int>): int
    requires |h| == 5 && |r| == 5
  {
    Prod(h[0], r[2]) + Prod(h[1], r[1]) + Prod(h[2], r[0]) + Prod(h[3], 5 * r[4]) + Prod(h[4], 5 * r[3])
  }

  function D3(h: seq<int>, r: seq<int>): int
    requires |h| == 5 && |r| == 5
  {
    Prod(h[0], r[3]) + Prod(h[1], r[2]) + Prod(h[2], r[1]) + Prod(h[3], r[0]) + Prod(h[4], 5 * r[4])
  }

  function D4(h: seq<int>, r: seq<int>): int
    requires |h| == 5 && |r| == 5
  {
    Prod(h[0], r[4]) + Prod(h[1], r[3]) + Prod(h[2], r[2]) + Prod(h[3], r[1]) + Prod(h[4], r[0])
  }

  lemma PartialProduct(x: int, y: int)
    requires 0 <= x < 0x800_0040 && 0 <= y < 0x400_0000
    ensures 0 <= x * y <= 0x20_0001_0000_0000
    ensures x * (5 * y) == 5 * (x * y)
  {
    MulBound(x, y, 0x800_003F, 0x3FF_FFFF);
  }

  lemma RowProducts(x: int, r: seq<int>)
    requires 0 <= x < 0x800_0040 && Clamped(r)
    ensures forall j :: 0 <= j < 5 ==> 0 <= x * r[j] <= 0x20_0001_0000_0000
    ensures forall j :: 0 <= j < 5 ==> x * (5 * r[j]) == 5 * (x * r[j])
  {
    PartialProduct(x, r[0]);
    PartialProduct(x, r[1]);
    PartialProduct(x, r[2]);
    PartialProduct(x, r[3]);
    PartialProduct(x, r[4]);
  }

  lemma ColumnBounds(h: seq<int>, r: seq<int>)
    requires Fed(h) && Clamped(r)
    ensures 0 <= D0(h, r) <= 21 * 0x20_0001_0000_0000
    ensures 0 <= D1(h, r) <= 17 * 0x20_0001_0000_0000
    ensures 0 <= D2(h, r) <= 13 * 0x20_0001_0000_0000
    ensures 0 <= D3(h, r) <= 9 * 0x20_0001_0000_0000
    ensures 0 <= D4(h, r) <= 5 * 0x20_0001_0000_0000
  {
    RowProducts(h[0], r);
    RowProducts(h[1], r);
    RowProducts(h[2], r);
    RowProducts(h[3], r);
    RowProducts(h[4], r);
  }

  lemma Distribute26(x: int, b0: int, b1: int, b2: int, b3: int, b4: int)
    ensures x * Val26(b0, b1, b2, b3, b4) == Val26(x * b0, x * b1, x * b2, x * b3, x * b4)
  {
    ScaledTerm(x, 0x400_0000, b1);
    ScaledTerm(x, 0x10_0000_0000_0000, b2);
    ScaledTerm(x, 0x4000_0000_0000_0000_0000, b3);
    ScaledTerm(x, 0x100_0000_0000_0000_0000_0000_0000, b4);
    Sum5(x, b0, 0x400_0000 * b1, 0x10_0000_0000_0000 * b2, 0x4000_0000_0000_0000_0000 * b3,
         0x100_0000_0000_0000_0000_0000_0000 * b4);
  }

  lemma RowsSum(h: seq<int>, r: seq<int>)
    requires |h| == 5 && |r| == 5
    ensures HVal(h) * HVal(r) == Val26(h[0] * HVal(r), h[1] * HVal(r), h[2] * HVal(r), h[3] * HVal(r), h[4] * HVal(r))
  {
    Distribute26(HVal(r), h[0], h[1], h[2], h[3], h[4]);
  }

  /** The multiples of 2^130 that the factor 5 stands for. */
  function Wrapped(h: seq<int>, r: seq<int>): int
    requires |h| == 5 && |r| == 5
  {
    Val26(h[1] * r[4] + h[2] * r[3] + h[3] * r[2] + h[4] * r[1],
          h[2] * r[4] + h[3] * r[3] + h[4] * r[2],
          h[3] * r[4] + h[4] * r[3],
          h[4] * r[4],
          0)
  }

  /** The five columns are the product, with what passes 2^130 folded in. */
  lemma ColumnsAreProduct(h: seq<int>, r: seq<int>)
    requires Fed(h) && Clamped(r)
    ensures HVal(h) * HVal(r) == Val26(D0(h, r), D1(h, r), D2(h, r), D3(h, r), D4(h, r)) + Wrapped(h, r) * P
  {
    RowsSum(h, r);
    Distribute26(h[0], r[0], r[1], r[2], r[3], r[4]);
    Distribute26(h[1], r[0], r[1], r[2], r[3], r[4]);
    Distribute26(h[2], r[0], r[1], r[2], r[3], r[4]);
    Distribute26(h[3], r[0], r[1], r[2], r[3], r[4]);
    Distribute26(h[4], r[0], r[1], r[2], r[3], r[4]);
    RowProducts(h[1], r);
    RowProducts(h[2], r);
    RowProducts(h[3], r);
    RowProducts(h[4], r);
  }

  lemma ColumnsCong(h: seq<int>, r: seq<int>)
    requires Fed(h) && Clamped(r)
    ensures Cong(Val26(D0(h, r), D1(h, r), D2(h, r), D3(h, r), D4(h, r)), HVal(h) * HVal(r), P)
  {
    hide Val26, D0, D1, D2, D3, D4, Wrapped, HVal;
    ColumnsAreProduct(h, r);
    CongMultiple(HVal(h) * HVal(r), Val26(D0(h, r), D1(h, r), D2(h, r), D3(h, r), D4(h, r)), Wrapped(h, r), P);
  }

  /** One pass of carries over the columns, 2^130 coming back as 5. */
  lemma CarryValue(t0: int, t1: int, t2: int, t3: int, t4: int,
                   c0: int, c1: int, c2: int, c3: int, c4: int, c5: int,
                   r0: int, r1: int, r2: int, r3: int, r4: int, s0: int, s1: int)
    requires t0 == c0 * 0x400_0000 + r0
    requires t1 + c0 == c1 * 0x400_0000 + r1
    requires t2 + c1 == c2 * 0x400_0000 + r2
    requires t3 + c2 == c3 * 0x400_0000 + r3
    requires t4 + c3 == c4 * 0x400_0000 + r4
    requires r0 + 5 * c4 == c5 * 0x400_0000 + s0
    requires s1 == r1 + c5
    ensures Cong(Val26(s0, s1, r2, r3, r4), Val26(t0, t1, t2, t3, t4), P)
  {
    CongMultiple(Val26(s0, s1, r2, r3, r4), Val26(t0, t1, t2, t3, t4), -c4, P);
  }

  // ---------------------------------------------------------------- one block

  /** h with the limbs of a block added. */
  function FedLimbs(h: seq<int>, t0: u32, t1: u32, t2: u32, t3: u32, hibit: u32): (f: seq<int>)
    requires |h| == 5
    ensures |f| == 5
  {
    [h[0] + Lo26(t0), h[1] + Lo26(Straddle1(t0, t1)), h[2] + Lo26(Straddle2(t1, t2)), h[3] + Lo26(Straddle3(t2, t3)),
     h[4] + Or32(Shr(t3, 8), hibit)]
  }

  /** Adding the limbs adds the block with its bit past the end. */
  lemma FedValue(h: seq<int>, t0: u32, t1: u32, t2: u32, t3: u32, hibit: u32)
    requires Lazy(h) && (hibit == 0 || hibit == 0x100_0000)
    ensures Fed(FedLimbs(h, t0, t1, t2, t3, hibit))
    ensures HVal(FedLimbs(h, t0, t1, t2, t3, hibit))
            == HVal(h) + (t0 + 0x1_0000_0000 * t1 + 0x1_0000_0000_0000_0000 * t2 + 0x1_0000_0000_0000_0000_0000_0000 * t3)
               + (if hibit == 0 then 0 else TWO128)
  {
    hide Lo26, Straddle1, Straddle2, Straddle3, Shr, Or32;
    MessageLimbs(t0, t1, t2, t3);
    HighBit(Shr(t3, 8));
  }

  // ---------------------------------------------------------------- the canonical residue

  /** The last carry pass leaves every limb in 26 bits. */
  lemma LastPass(h: seq<int>, c1: int, c2: int, c3: int, c4: int, c0: int, l1: int, l2: int, l3: int, l4: int, s0: int, s1: int)
    requires Lazy(h)
    requires 0 <= l1 < 0x400_0000 && 0 <= l2 < 0x400_0000 && 0 <= l3 < 0x400_0000 && 0 <= l4 < 0x400_0000 && 0 <= s0 < 0x400_0000
    requires h[1] == c1 * 0x400_0000 + l1
    requires h[2] + c1 == c2 * 0x400_0000 + l2
    requires h[3] + c2 == c3 * 0x400_0000 + l3
    requires h[4] + c3 == c4 * 0x400_0000 + l4
    requires h[0] + 5 * c4 == c0 * 0x400_0000 + s0
    requires s1 == l1 + c0
    ensures 0 <= s1 < 0x400_0000
    ensures Cong(Val26(s0, s1, l2, l3, l4), HVal(h), P)
  {
    assert 0 <= c1 <= 1;
    assert 0 <= c2 <= 1;
    assert 0 <= c3 <= 1;
    assert 0 <= c4 <= 1;
    assert 0 <= c0 <= 1;
    CongMultiple(Val26(s0, s1, l2, l3, l4), HVal(h), -c4, P);
  }

  /** Adding five carries into 2^130 exactly when the value reaches the prime. */
  lemma Canonical(h0: int, h1: int, h2: int, h3: int, h4: int, c0: int, c1: int, c2: int, c3: int,
                  g0: int, g1: int, g2: int, g3: int, g4: int)
    requires 0 <= h0 < 0x400_0000 && 0 <= h1 < 0x400_0000 && 0 <= h2 < 0x400_0000 && 0 <= h3 < 0x400_0000 && 0 <= h4 < 0x400_0000
    requires 0 <= g0 < 0x400_0000 && 0 <= g1 < 0x400_0000 && 0 <= g2 < 0x400_0000 && 0 <= g3 < 0x400_0000
    requires h0 + 5 == c0 * 0x400_0000 + g0
    requires h1 + c0 == c1 * 0x400_0000 + g1
    requires h2 + c1 == c2 * 0x400_0000 + g2
    requires h3 + c2 == c3 * 0x400_0000 + g3
    requires g4 == h4 + c3 - 0x400_0000
    ensures g4 <= 0
    ensures g4 < 0 ==> Val26(h0, h1, h2, h3, h4) == Val26(h0, h1, h2, h3, h4) % P
    ensures g4 == 0 ==> Val26(g0, g1, g2, g3, g4) == Val26(h0, h1, h2, h3, h4) % P
  {
    assert 0 <= c0 <= 1;
    assert 0 <= c1 <= 1;
    assert 0 <= c2 <= 1;
    assert 0 <= c3 <= 1;
    var v := Val26(h0, h1, h2, h3, h4);
    assert v - P == Val26(g0, g1, g2, g3, g4);
    if g4 < 0 {
      DivModUnique(v, P, 0, v);
    } else {
      DivModUnique(v, P, 1, v - P);
    }
  }

  /** (h & ~mask) | (g & mask) with an all-ones or an empty mask. */
  lemma SelectLimb(h: u32, g: u32)
    ensures Or(And(h, 0xFFFF_FFFF), And(g, 0)) == h
    ensures Or(And(h, 0), And(g, 0xFFFF_FFFF)) == g
  {
    Pow2Wide();
    AndMask(h, 32);
    AndMask(g, 32);
    AndZero(h);
    AndZero(g);
    ModWord(h);
    ModWord(g);
    hide And, Pow2;
  }

  lemma ModWord(x: u32)
    ensures x % Pow2(32) == x
  {
    Pow2Wide();
    DivModUnique(x, Pow2(32), 0, x);
  }

  /** Four 32-bit words out of five 26-bit limbs; the top two bits are dropped. */
  lemma Repack(h0: u32, h1: u32, h2: u32, h3: u32, h4: u32)
    requires h0 < 0x400_0000 && h1 < 0x400_0000 && h2 < 0x400_0000 && h3 < 0x400_0000 && h4 < 0x400_0000
    ensures
      Or32(h0, Shl32(h1, 26)) + 0x1_0000_0000 * Or32(Shr(h1, 6), Shl32(h2, 20))
      + 0x1_0000_0000_0000_0000 * Or32(Shr(h2, 12), Shl32(h3, 14))
      + 0x1_0000_0000_0000_0000_0000_0000 * Or32(Shr(h3, 18), Shl32(h4, 8))
      == Val26(h0, h1, h2, h3, h4) - (h4 as int / 0x100_0000) * TWO128
  {
    hide Or32, Shl32, Pow2;
    Pow2Words();
    Pack32(h0, h1, 26, 0x400_0000, 0x40);
    Pack32(Shr(h1, 6), h2, 20, 0x10_0000, 0x1000);
    Pack32(Shr(h2, 12), h3, 14, 0x4000, 0x4_0000);
    Pack32(Shr(h3, 18), h4, 8, 0x100, 0x100_0000);
  }

  /** Adding the pad word by word, the last carry dropped, is addition modulo 2^128. */
  lemma AddPad(w: int, v: int, x: int, pad: int, s0: int, s1: int, s2: int, s3: int,
               f0: int, f1: int, f2: int, f3: int, p0: int, p1: int, p2: int, p3: int,
               o0: int, o1: int, o2: int, o3: int, c0: int, c1: int, c2: int, c3: int)
    requires w == f0 + 0x1_0000_0000 * f1 + 0x1_0000_0000_0000_0000 * f2 + 0x1_0000_0000_0000_0000_0000_0000 * f3
    requires pad == p0 + 0x1_0000_0000 * p1 + 0x1_0000_0000_0000_0000 * p2 + 0x1_0000_0000_0000_0000_0000_0000 * p3
    requires w == v - x * TWO128
    requires s0 == f0 + p0 && s1 == f1 + p1 + c0 && s2 == f2 + p2 + c1 && s3 == f3 + p3 + c2
    requires s0 == c0 * 0x1_0000_0000 + o0 && s1 == c1 * 0x1_0000_0000 + o1
    requires s2 == c2 * 0x1_0000_0000 + o2 && s3 == c3 * 0x1_0000_0000 + o3
    requires 0 <= o0 < 0x1_0000_0000 && 0 <= o1 < 0x1_0000_0000 && 0 <= o2 < 0x1_0000_0000 && 0 <= o3 < 0x1_0000_0000
    ensures o0 + 0x1_0000_0000 * o1 + 0x1_0000_0000_0000_0000 * o2 + 0x1_0000_0000_0000_0000_0000_0000 * o3
            == (v + pad) % TWO128
  {
    var o := o0 + 0x1_0000_0000 * o1 + 0x1_0000_0000_0000_0000 * o2 + 0x1_0000_0000_0000_0000_0000_0000 * o3;
    assert v + pad == (x + c3) * TWO128 + o;
    DivModUnique(v + pad, TWO128, x + c3, o);
  }
}
