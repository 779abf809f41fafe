/** The inversion chain, the ladder and the whole function of kernel/x25519.c on limb arrays. */
module X25519 {
  import opened Words
  import opened LittleEndian
  import opened X25519Field
  import opened X25519Bytes
  import opened X25519Spec

  // ---------------------------------------------------------------- inversion

  /** a holds z to the power e. */
  ghost predicate IsPow(a: seq<u64>, z: int, e: nat) {
    Tight(a) && Rep(a, Pow(z, e))
  }

  method MulPow(r: array<u64>, a: array<u64>, b: array<u64>, ghost z: int, ghost d: nat, ghost e: nat)
    requires r.Length == a.Length == b.Length == 5
    requires IsPow(a[..], z, d) && IsPow(b[..], z, e)
    modifies r
    ensures IsPow(r[..], z, d + e)
  {
    hide Cong, Pow, FeVal;
    PowAdd(z, d, e);
    Mul(r, a, b, Pow(z, d), Pow(z, e));
  }

  /** e * 2^n. */
  function Scaled(e: nat, n: nat): (r: nat)
    ensures r == e * Pow2(n)
  {
    DoubleScale(e, Pow2(n));
    e * Pow2(n)
  }

  lemma ScaledStep(e: nat, n: nat)
    ensures Scaled(e, 0) == e && Scaled(e, n + 1) == Scaled(e, n) + Scaled(e, n)
  {
    DoubleScale(e, Pow2(n));
  }

  /** n squarings in place. */
  method SqTimes(t: array<u64>, n: nat, ghost z: int, ghost e: nat)
    requires t.Length == 5 && IsPow(t[..], z, e)
    modifies t
    ensures IsPow(t[..], z, Scaled(e, n))
  {
    hide IsPow, Scaled, Pow2;
    ScaledStep(e, 0);
    for i := 0 to n
      modifies t
      invariant IsPow(t[..], z, Scaled(e, i))
    {
      MulPow(t, t, t, z, Scaled(e, i), Scaled(e, i));
      ScaledStep(e, i);
    }
  }

  /** The exponent of a run of ones: n squarings make room for the n ones of the factor. */
  lemma RunOfOnes(m: nat, n: nat)
    ensures Scaled(Pow2(m) - 1, n) + (Pow2(n) - 1) == Pow2(m + n) - 1
  {
    Pow2Add(m, n);
    assert (Pow2(m) - 1) * Pow2(n) == Pow2(m) * Pow2(n) - Pow2(n);
  }

  /** From a = z^(2^m - 1) and b = z^(2^n - 1) to z^(2^(m + n) - 1), squaring in t. */
  method Chain(r: array<u64>, t: array<u64>, a: array<u64>, b: array<u64>, m: nat, n: nat, ghost z: int)
    requires r.Length == t.Length == a.Length == b.Length == 5 && t != b && n > 0
    requires IsPow(a[..], z, Pow2(m) - 1) && IsPow(b[..], z, Pow2(n) - 1)
    modifies r, t
    ensures IsPow(r[..], z, Pow2(m + n) - 1)
  {
    hide IsPow, Scaled, Pow2;
    ghost var e := Pow2(m) - 1;
    MulPow(t, a, a, z, e, e);
    SqTimes(t, n - 1, z, e + e);
    ScaledTwice(e, n);
    RunOfOnes(m, n);
    MulPow(r, t, b, z, Scaled(e, n), Pow2(n) - 1);
  }

  lemma ScaledTwice(e: nat, n: nat)
    requires n > 0
    ensures Scaled(e + e, n - 1) == Scaled(e, n)
  {
    DoubleScale(e, Pow2(n - 1));
  }

  lemma InverseExponent()
    ensures Scaled(Pow2(250) - 1, 5) + 11 == P - 2
  {
    Pow2At255();
    Pow2Values();
    Pow2Add(250, 5);
    hide Pow2;
  }

  lemma Pow2At255()
    ensures Pow2(255) == P + 19 && Pow2(255) == 2 * TOP
  {
    Pow2At51();
    Pow2Sum(51, 51, 102, 0x8_0000_0000_0000, 0x8_0000_0000_0000);
    Pow2Sum(102, 102, 204, 0x40_0000_0000_0000_0000_0000_0000, 0x40_0000_0000_0000_0000_0000_0000);
    Pow2Sum(204, 51, 255, 0x1000_0000_0000_0000_0000_0000_0000_0000_0000_0000_0000_0000_0000, 0x8_0000_0000_0000);
    hide Pow2;
  }

  /** z^9 and z^11. */
  method SmallPowers(z9: array<u64>, z11: array<u64>, z: array<u64>, ghost v: int)
    requires z9.Length == z11.Length == z.Length == 5 && z9 != z && z11 != z9
    requires IsPow(z[..], v, 1)
    modifies z9, z11
    ensures IsPow(z9[..], v, 9) && IsPow(z11[..], v, 11)
  {
    hide IsPow;
    var z2, t := new u64[5], new u64[5];
    MulPow(z2, z, z, v, 1, 1);
    MulPow(t, z2, z2, v, 2, 2);
    MulPow(t, t, t, v, 4, 4);
    MulPow(z9, t, z, v, 8, 1);
    MulPow(z11, z9, z2, v, 9, 2);
  }

  /** The run of 250 ones. */
  method Ones250(t: array<u64>, z9: array<u64>, z11: array<u64>, ghost v: int)
    requires t.Length == z9.Length == z11.Length == 5 && t != z9 && t != z11
    requires IsPow(z9[..], v, 9) && IsPow(z11[..], v, 11)
    modifies t
    ensures IsPow(t[..], v, Pow2(250) - 1)
  {
    hide IsPow, Pow2;
    Pow2Values();
    var z2_5_0, z2_10_0, z2_20_0 := new u64[5], new u64[5], new u64[5];
    var z2_50_0, z2_100_0 := new u64[5], new u64[5];
    MulPow(t, z11, z11, v, 11, 11);
    MulPow(z2_5_0, t, z9, v, 22, 9);
    Chain(z2_10_0, t, z2_5_0, z2_5_0, 5, 5, v);
    Chain(z2_20_0, t, z2_10_0, z2_10_0, 10, 10, v);
    Chain(t, t, z2_20_0, z2_20_0, 20, 20, v);
    Chain(z2_50_0, t, t, z2_10_0, 40, 10, v);
    Chain(z2_100_0, t, z2_50_0, z2_50_0, 50, 50, v);
    Chain(t, t, z2_100_0, z2_100_0, 100, 100, v);
    Chain(t, t, t, z2_50_0, 200, 50, v);
  }

  /** fe_inv: the power p - 2. */
  method FeInv(r: array<u64>, z: array<u64>, ghost v: int)
    requires r.Length == z.Length == 5 && Tight(z[..]) && Rep(z[..], v)
    modifies r
    ensures Tight(r[..]) && Rep(r[..], Pow(v, P - 2))
  {
    hide Pow2, Scaled, Tight, Rep;
    var z9, z11, t := new u64[5], new u64[5], new u64[5];
    PowOne(v);
    SmallPowers(z9, z11, z, v);
    Ones250(t, z9, z11, v);
    SqTimes(t, 5, v, Pow2(250) - 1);
    InverseExponent();
    MulPow(r, t, z11, v, Scaled(Pow2(250) - 1, 5), 11);
  }

  lemma PowOne(v: int)
    ensures Pow(v, 1) == v
  {
    assert Pow(v, 0) == 1;
  }

  // ---------------------------------------------------------------- the ladder

  /** x / z of a point held in two field elements. */
  ghost predicate Holds(x: seq<u64>, z: seq<u64>, p: Xz) {
    Tight(x) && Tight(z) && Rep(x, p.x) && Rep(z, p.z)
  }

  lemma RepMod(a: seq<u64>, v: int)
    requires Rep(a, v)
    ensures Rep(a, v % P)
  {
    CongMod(v, P);
  }

  /** The sum, the difference and their squares, and the difference of the squares. */
  method Squares(x: array<u64>, z: array<u64>, ghost p: Xz)
    returns (a: array<u64>, aa: array<u64>, b: array<u64>, bb: array<u64>, e: array<u64>)
    requires x.Length == z.Length == 5 && Holds(x[..], z[..], p)
    ensures fresh(a) && fresh(aa) && fresh(b) && fresh(bb) && fresh(e)
    ensures a.Length == aa.Length == b.Length == bb.Length == e.Length == 5
    ensures Below(a[..], LOOSE) && Rep(a[..], p.x + p.z)
    ensures Below(b[..], LOOSE) && Rep(b[..], p.x - p.z)
    ensures Tight(aa[..]) && Rep(aa[..], (p.x + p.z) * (p.x + p.z))
    ensures Tight(bb[..]) && Rep(bb[..], (p.x - p.z) * (p.x - p.z))
    ensures Below(e[..], LOOSE) && Rep(e[..], (p.x + p.z) * (p.x + p.z) - (p.x - p.z) * (p.x - p.z))
  {
    hide Rep, Cong;
    a, aa, b, bb, e := new u64[5], new u64[5], new u64[5], new u64[5], new u64[5];
    Unhold(x[..], z[..], p);
    Add(a, x, z, p.x, p.z);
    Sq(aa, a, p.x + p.z);
    Sub(b, x, z, p.x, p.z);
    Sq(bb, b, p.x - p.z);
    Sub(e, aa, bb, (p.x + p.z) * (p.x + p.z), (p.x - p.z) * (p.x - p.z));
  }

  lemma Unhold(x: seq<u64>, z: seq<u64>, p: Xz)
    requires Holds(x, z, p)
    ensures Tight(x) && Tight(z) && Rep(x, p.x) && Rep(z, p.z)
  {}

  /** (q.x - q.z)(p.x + p.z) and (q.x + q.z)(p.x - p.z). */
  method Cross(x: array<u64>, z: array<u64>, a: array<u64>, b: array<u64>, ghost p: Xz, ghost q: Xz)
    returns (da: array<u64>, cb: array<u64>)
    requires x.Length == z.Length == a.Length == b.Length == 5 && Holds(x[..], z[..], q)
    requires Below(a[..], LOOSE) && Rep(a[..], p.x + p.z) && Below(b[..], LOOSE) && Rep(b[..], p.x - p.z)
    ensures fresh(da) && fresh(cb) && da.Length == cb.Length == 5
    ensures Tight(da[..]) && Rep(da[..], (q.x - q.z) * (p.x + p.z))
    ensures Tight(cb[..]) && Rep(cb[..], (q.x + q.z) * (p.x - p.z))
  {
    hide Rep, Cong;
    var c, d := new u64[5], new u64[5];
    da, cb := new u64[5], new u64[5];
    Unhold(x[..], z[..], q);
    Add(c, x, z, q.x, q.z);
    Sub(d, x, z, q.x, q.z);
    Mul(da, d, a, q.x - q.z, p.x + p.z);
    Mul(cb, c, b, q.x + q.z, p.x - p.z);
  }

  /** The new third point, from the cross products. */
  method Third(x: array<u64>, z: array<u64>, x1: array<u64>, da: array<u64>, cb: array<u64>,
               ghost u: int, ghost v: int, ghost w: int)
    requires x.Length == z.Length == x1.Length == da.Length == cb.Length == 5
    requires x != z && x != x1 && x != da && x != cb
    requires Tight(x1[..]) && Rep(x1[..], u) && Tight(da[..]) && Rep(da[..], v) && Tight(cb[..]) && Rep(cb[..], w)
    modifies x, z
    ensures Holds(x[..], z[..], Xz((v + w) * (v + w) % P, u * ((v - w) * (v - w)) % P))
  {
    var t1, t2 := new u64[5], new u64[5];
    Add(t1, da, cb, v, w);
    Sq(x, t1, v + w);
    Sub(t1, da, cb, v, w);
    Sq(t2, t1, v - w);
    Mul(z, x1, t2, u, (v - w) * (v - w));
    RepMod(x[..], (v + w) * (v + w));
    RepMod(z[..], u * ((v - w) * (v - w)));
    hide Rep, Cong;
  }

  /** The new second point, from the squares. */
  method Second(x: array<u64>, z: array<u64>, aa: array<u64>, bb: array<u64>, e: array<u64>, ghost v: int, ghost w: int)
    requires x.Length == z.Length == aa.Length == bb.Length == e.Length == 5
    requires x != z && x != aa && x != e
    requires Tight(aa[..]) && Rep(aa[..], v) && Tight(bb[..]) && Rep(bb[..], w) && Below(e[..], LOOSE) && Rep(e[..], v - w)
    modifies x, z
    ensures Holds(x[..], z[..], Xz(v * w % P, (v - w) * (v + 121665 * (v - w)) % P))
  {
    var t1, t2 := new u64[5], new u64[5];
    Mul(x, aa, bb, v, w);
    Mul121665(t1, e, v - w);
    Add(t2, aa, t1, v, 121665 * (v - w));
    Mul(z, e, t2, v - w, v + 121665 * (v - w));
    RepMod(x[..], v * w);
    RepMod(z[..], (v - w) * (v + 121665 * (v - w)));
    hide Rep, Cong;
  }

  /** One ladder step without its swap. */
  method Step(x1: array<u64>, x2: array<u64>, z2: array<u64>, x3: array<u64>, z3: array<u64>,
              ghost u: int, ghost p: Xz, ghost q: Xz)
    requires x1.Length == x2.Length == z2.Length == x3.Length == z3.Length == 5
    requires Distinct(x1, x2, z2, x3, z3)
    requires Tight(x1[..]) && Rep(x1[..], u) && Holds(x2[..], z2[..], p) && Holds(x3[..], z3[..], q)
    modifies x2, z2, x3, z3
    ensures Holds(x2[..], z2[..], Doubled(p)) && Holds(x3[..], z3[..], DiffAdd(u, p, q))
  {
    hide Rep, Holds, Tight;
    var a, aa, b, bb, e := Squares(x2, z2, p);
    var da, cb := Cross(x3, z3, a, b, p, q);
    Third(x3, z3, x1, da, cb, u, (q.x - q.z) * (p.x + p.z), (q.x + q.z) * (p.x - p.z));
    Second(x2, z2, aa, bb, e, (p.x + p.z) * (p.x + p.z), (p.x - p.z) * (p.x - p.z));
  }

  predicate Distinct(x1: array<u64>, x2: array<u64>, z2: array<u64>, x3: array<u64>, z3: array<u64>) {
    && x1 != x2 && x1 != z2 && x1 != x3 && x1 != z3
    && x2 != z2 && x2 != x3 && x2 != z3
    && z2 != x3 && z2 != z3
    && x3 != z3
  }

  /** The two points, exchanged when swap is 1. */
  function Swapped(s: (Xz, Xz), swap: u64): (Xz, Xz) {
    if swap == 1 then (s.1, s.0) else s
  }

  /** The two swaps at the top of the loop and after it. */
  method SwapPoints(x2: array<u64>, z2: array<u64>, x3: array<u64>, z3: array<u64>, swap: u64, ghost s: (Xz, Xz))
    requires x2.Length == z2.Length == x3.Length == z3.Length == 5 && swap <= 1
    requires x2 != z2 && x2 != x3 && x2 != z3 && z2 != x3 && z2 != z3 && x3 != z3
    requires Holds(x2[..], z2[..], s.0) && Holds(x3[..], z3[..], s.1)
    modifies x2, z2, x3, z3
    ensures Holds(x2[..], z2[..], Swapped(s, swap).0) && Holds(x3[..], z3[..], Swapped(s, swap).1)
  {
    hide Rep, Tight;
    CondSwap(x2, x3, swap);
    CondSwap(z2, z3, swap);
  }

  /** Swapping by the change of the bit leaves the points swapped exactly when the new bit is 1. */
  lemma SwapChange(s: (Xz, Xz), swap: u64, bit: u64)
    requires swap <= 1 && bit <= 1
    ensures Xor(swap, bit) <= 1
    ensures Swapped(Swapped(s, swap), Xor(swap, bit)) == Swapped(s, bit)
  {
    assert Xor(0, 0) == 0 && Xor(0, 1) == 1 && Xor(1, 0) == 1;
    XorUnfold(1, 1);
  }

  /** One step on the points as the arrays hold them is one bit of the plain ladder. */
  lemma LadderBit(u: int, n: nat, bit: u64)
    requires bit <= 1 && 2 * n + bit > 0
    ensures
      var s := Swapped(Ladder(u, n), bit);
      Swapped((Doubled(s.0), DiffAdd(u, s.0, s.1)), bit) == Ladder(u, 2 * n + bit)
  {
    hide Doubled, DiffAdd, Ladder;
    var s := Ladder(u, n);
    LadderNext(u, n, bit);
    DiffAddSymmetric(u, s.0, s.1);
  }

  /** One bit: swap by its change, then step. */
  method BitStep(x1: array<u64>, x2: array<u64>, z2: array<u64>, x3: array<u64>, z3: array<u64>,
                 swap: u64, bit: u64, ghost u: int, ghost n: nat)
    requires x1.Length == x2.Length == z2.Length == x3.Length == z3.Length == 5
    requires Distinct(x1, x2, z2, x3, z3)
    requires Tight(x1[..]) && Rep(x1[..], u) && swap <= 1 && bit <= 1 && 2 * n + bit > 0
    requires Holds(x2[..], z2[..], Swapped(Ladder(u, n), swap).0)
    requires Holds(x3[..], z3[..], Swapped(Ladder(u, n), swap).1)
    modifies x2, z2, x3, z3
    ensures Holds(x2[..], z2[..], Swapped(Ladder(u, 2 * n + bit), bit).0)
    ensures Holds(x3[..], z3[..], Swapped(Ladder(u, 2 * n + bit), bit).1)
  {
    hide Rep, Holds, Tight, Ladder, Doubled, DiffAdd, Xor;
    ghost var s := Ladder(u, n);
    SwapChange(s, swap, bit);
    SwapPoints(x2, z2, x3, z3, Xor(swap, bit), Swapped(s, swap));
    ghost var c := Swapped(s, bit);
    Step(x1, x2, z2, x3, z3, u, c.0, c.1);
    LadderBit(u, n, bit);
    SwapTwice((Doubled(c.0), DiffAdd(u, c.0, c.1)), bit);
  }

  lemma SwapTwice(s: (Xz, Xz), swap: u64)
    ensures Swapped(Swapped(s, swap), swap) == s
  {}

  /** (e[t >> 3] >> (t & 7)) & 1 is bit t of the scalar. */
  lemma ScalarBit(e: seq<u8>, t: u8)
    requires |e| == 32 && t < 255
    ensures Shr(t, 3) < 32 && And(t, 7) < 8
    ensures And(Shr(e[Shr(t, 3)], And(t, 7)), 1) <= 1
    ensures Shr(LeVal(e), t) == 2 * Shr(LeVal(e), t + 1) + And(Shr(e[Shr(t, 3)], And(t, 7)), 1)
  {
    hide And, LeVal, LeFrom;
    ByteCuts(t);
    AndOne(Shr(e[t / 8], t % 8));
    LeBit(e, 0, t);
    assert LeVal(e) == LeFrom(e, 0) by { LeWhole(e); }
    NextBit(LeVal(e), t);
    BitIsTest(LeVal(e), t);
    BitIsTest(e[t / 8], t % 8);
  }

  lemma LeWhole(e: seq<u8>)
    ensures LeVal(e) == LeFrom(e, 0)
  {}

  lemma NextBit(k: nat, t: nat)
    ensures Shr(k, t) == 2 * Shr(k, t + 1) + Shr(k, t) % 2
  {
    Pow2Add(t, 1);
    DivDiv(k, Pow2(t), 2);
  }

  lemma BitIsTest(k: nat, t: nat)
    ensures Shr(k, t) % 2 == if TestBit(k, t) then 1 else 0
  {}

  /** The loop over the bits of the clamped scalar. */
  method LadderLoop(e: array<u8>, x1: array<u64>, x2: array<u64>, z2: array<u64>, x3: array<u64>, z3: array<u64>,
                    ghost u: int, ghost k: nat)
    requires e.Length == 32 && LeVal(e[..]) == k && TOP <= k < 2 * TOP
    requires x1.Length == x2.Length == z2.Length == x3.Length == z3.Length == 5
    requires Distinct(x1, x2, z2, x3, z3)
    requires Tight(x1[..]) && Rep(x1[..], u)
    requires Holds(x2[..], z2[..], Xz(1, 0)) && Holds(x3[..], z3[..], Xz(u, 1))
    modifies x2, z2, x3, z3
    ensures Holds(x2[..], z2[..], Ladder(u, k).0) && Holds(x3[..], z3[..], Ladder(u, k).1)
  {
    LoopStart(u, k);
    hide Rep, Holds, Tight, Ladder, Doubled, DiffAdd, Xor, And, Shr, LeVal;
    ghost var s := e[..];
    var swap: u64 := 0;
    for t := 255 downto 0
      modifies x2, z2, x3, z3
      invariant swap <= 1
      invariant Holds(x2[..], z2[..], Swapped(Ladder(u, Shr(k, t)), swap).0)
      invariant Holds(x3[..], z3[..], Swapped(Ladder(u, Shr(k, t)), swap).1)
    {
      assert e[..] == s;
      ScalarBit(s, t);
      TopBitLeft(k, t);
      var bit: u64 := And(Shr(e[Shr(t, 3)], And(t, 7)), 1);
      BitStep(x1, x2, z2, x3, z3, swap, bit, u, Shr(k, t + 1));
      swap := bit;
    }
    NoShift(k);
    SwapPoints(x2, z2, x3, z3, swap, Swapped(Ladder(u, k), swap));
    SwapTwice(Ladder(u, k), swap);
  }

  lemma NoShift(k: nat)
    ensures Shr(k, 0) == k
  {}

  lemma LoopStart(u: int, k: nat)
    requires k < 2 * TOP
    ensures Shr(k, 255) == 0 && Ladder(u, 0) == (Xz(1, 0), Xz(u, 1))
  {
    Pow2At255();
    DivModUnique(k, Pow2(255), 0, k);
  }

  /** The top bit is one, so the ladder never doubles the point at infinity first. */
  lemma TopBitLeft(k: nat, t: nat)
    requires TOP <= k && t <= 254
    ensures Shr(k, t) > 0
  {
    Pow2Add(t, 254 - t);
    Pow2Add(1, 254);
    Pow2At255();
    MulMono(1, Pow2(254 - t), Pow2(t));
    DivPositive(k, Pow2(t));
  }

  lemma DivPositive(k: nat, d: nat)
    requires 0 < d <= k
    ensures k / d > 0
  {}

  // ---------------------------------------------------------------- the whole function

  lemma AndHigh5(x: u8)
    ensures And(x, 248) == x - x % 8
  {
    hide And, Pow2;
    Pow2Values();
    AndSplit(x / 8, x % 8, 31, 0, 3);
    AndMask(x / 8, 5);
    AndZero(x % 8);
  }

  lemma {:induction false} OrAbsorb(x: nat, k: nat)
    requires x < Pow2(k)
    ensures Or(Pow2(k) + x, Pow2(k)) == Pow2(k) + x
  {
    OrUnfold(Pow2(k) + x, Pow2(k));
    if k == 0 {
      assert Or(0, 0) == 0;
    } else {
      OrAbsorb(x / 2, k - 1);
    }
  }

  lemma OrTop(x: nat, k: nat, p: nat)
    requires Pow2(k) == p && x < p
    ensures Or(x, p) == p + x && Or(p + x, p) == p + x
  {
    OrDisjoint(1, x, k);
    OrAbsorb(x, k);
    hide Or, Pow2;
  }

  lemma OrSixtyFour(x: u8)
    requires x < 128
    ensures Or(x, 64) == 64 + x % 64
  {
    hide Or, Pow2;
    Pow2Values();
    OrTop(x % 64, 6, 64);
  }

  /** The three masks of the scalar are the clamp. */
  lemma ClampedBytes(s: seq<u8>, e: seq<u8>)
    requires |s| == |e| == 32
    requires forall k :: 1 <= k < 31 ==> e[k] == s[k]
    requires e[0] == s[0] - s[0] % 8 && e[31] == 64 + s[31] % 64
    ensures LeVal(e) == Clamp(LeVal(s))
  {
    hide LeVal, Word8;
    var k, v := LeVal(s), LeVal(e);
    ClampedWords(s, e);
    LowByte(s);
    ClampArith(k, v, s[0] as int % 8, s[31] as int / 64);
  }

  lemma ClampedWords(s: seq<u8>, e: seq<u8>)
    requires |s| == |e| == 32
    requires forall k :: 1 <= k < 31 ==> e[k] == s[k]
    requires e[0] == s[0] - s[0] % 8 && e[31] == 64 + s[31] % 64
    ensures LeVal(e) == LeVal(s) - s[0] as int % 8 - (s[31] as int / 64) * TOP + TOP
    ensures TOP <= LeVal(e) < 2 * TOP
  {
    hide LeVal, Word8;
    LeWords(s);
    LeWords(e);
    SameWords(s, e);
    TopWord(s, e);
  }

  lemma SameWords(s: seq<u8>, e: seq<u8>)
    requires |s| == |e| == 32
    requires forall k :: 1 <= k < 31 ==> e[k] == s[k]
    requires e[0] == s[0] - s[0] % 8
    ensures Word8(e, 0) == Word8(s, 0) - s[0] as int % 8
    ensures Word8(e, 8) == Word8(s, 8) && Word8(e, 16) == Word8(s, 16)
    ensures 0 <= Word8(e, 0) < 0x1_0000_0000_0000_0000
    ensures 0 <= Word8(e, 8) < 0x1_0000_0000_0000_0000 && 0 <= Word8(e, 16) < 0x1_0000_0000_0000_0000
  {}

  lemma TopWord(s: seq<u8>, e: seq<u8>)
    requires |s| == |e| == 32
    requires forall k :: 24 <= k < 31 ==> e[k] == s[k]
    requires e[31] == 64 + s[31] % 64
    ensures Word8(e, 24) == Word8(s, 24) - 0x4000_0000_0000_0000 * (s[31] as int / 64) + 0x4000_0000_0000_0000
    ensures 0x4000_0000_0000_0000 <= Word8(e, 24) < 0x8000_0000_0000_0000
  {}

  lemma LowByte(s: seq<u8>)
    requires |s| == 32
    ensures LeVal(s) % 8 == s[0] % 8
  {
    var r := LeFrom(s, 1);
    assert LeVal(s) == s[0] + 256 * r;
  }

  lemma ClampArith(k: nat, v: int, low: int, high: int)
    requires v == k - low - high * TOP + TOP && low == k % 8 && TOP <= v < 2 * TOP
    ensures v == Clamp(k)
  {
    DivModUnique(k / 8, TOP / 8, high, (v - TOP) / 8);
  }

  /** Masking the last byte of u is the reduction modulo 2^255. */
  lemma MaskedBytes(s: seq<u8>, m: seq<u8>)
    requires |s| == |m| == 32
    requires forall k :: 0 <= k < 31 ==> m[k] == s[k]
    requires m[31] == s[31] % 128
    ensures LeVal(m) % TWO255 == LeVal(s) % (2 * TOP)
  {
    hide LeVal;
    LeWords(s);
    LeWords(m);
    assert LeVal(s) == LeVal(m) + (s[31] as int / 128) * TWO255;
    ModAddMul(LeVal(m), s[31] as int / 128, TWO255);
  }

  method CopyBytes(src: array<u8>) returns (e: array<u8>)
    requires src.Length == 32
    ensures fresh(e) && e.Length == 32 && e[..] == src[..]
  {
    e := new u8[32];
    for i := 0 to 32
      invariant forall k :: 0 <= k < i ==> e[k] == src[k]
    {
      e[i] := src[i];
    }
  }

  /** fe_copy. */
  method CopyFe(r: array<u64>, a: array<u64>)
    requires r.Length == a.Length == 5 && r != a
    modifies r
    ensures r[..] == a[..]
  {
    for i := 0 to 5
      invariant forall k :: 0 <= k < i ==> r[k] == a[k]
    {
      r[i] := a[i];
    }
  }

  /** The clamped copy of the scalar. */
  method ClampScalar(scalar: array<u8>) returns (e: array<u8>)
    requires scalar.Length == 32
    ensures fresh(e) && e.Length == 32 && LeVal(e[..]) == Clamp(LeVal(scalar[..]))
  {
    hide LeVal, And, Or, Shr, Clamp;
    e := CopyBytes(scalar);
    AndHigh5(e[0]);
    e[0] := And(e[0], 248);
    TopByte(e[31]);
    e[31] := And(e[31], 127);
    e[31] := Or(e[31], 64);
    ClampedBytes(scalar[..], e[..]);
  }

  /** (x & 127) | 64. */
  lemma TopByte(x: u8)
    ensures And(x, 127) < 128 && Or(And(x, 127), 64) == 64 + x % 64
  {
    hide And, Or, Shr, Pow2;
    ByteCuts(x);
    OrSixtyFour(x % 128);
    SmallerMod(x);
  }

  lemma SmallerMod(x: nat)
    ensures x % 128 < 128 && x % 128 % 64 == x % 64
  {}

  /** x1: the u coordinate, its top bit masked off. */
  method LoadU(x1: array<u64>, u_in: array<u8>)
    requires x1.Length == 5 && u_in.Length == 32
    modifies x1
    ensures Below(x1[..], 0x8_0000_0000_0000) && FeVal(x1[..]) == LeVal(u_in[..]) % (2 * TOP)
  {
    hide LeVal, And, Val5;
    var m := CopyBytes(u_in);
    ByteCuts(m[31]);
    m[31] := And(m[31], 0x7F);
    FromBytes(x1, m);
    MaskedBytes(u_in[..], m[..]);
  }

  /** An element set to a small constant (fe_zero, fe_one). */
  method SetSmall(r: array<u64>, v: u64)
    requires r.Length == 5 && v <= 1
    modifies r
    ensures Tight(r[..]) && Rep(r[..], v)
  {
    r[0], r[1], r[2], r[3], r[4] := v, 0, 0, 0, 0;
  }

  /** x / z by the power p - 2, encoded. */
  method Finish(out: array<u8>, x2: array<u64>, z2: array<u64>, ghost p: Xz)
    requires out.Length == 32 && x2.Length == z2.Length == 5 && x2 != z2 && Holds(x2[..], z2[..], p)
    modifies out, x2, z2
    ensures LeVal(out[..]) == p.x * Pow(p.z, P - 2) % P
  {
    hide LeVal, Rep, Pow, Val5;
    FeInv(z2, z2, p.z);
    Mul(x2, x2, z2, p.x, Pow(p.z, P - 2));
    ToBytes(out, x2);
    RepValue(x2[..], p.x * Pow(p.z, P - 2));
  }

  /** x25519: the encoding of the function of section 5 of RFC 7748, for every scalar and u. */
  method X25519(out: array<u8>, scalar: array<u8>, u_in: array<u8>)
    requires out.Length == scalar.Length == u_in.Length == 32
    modifies out
    ensures LeVal(out[..]) == old(ScalarMult(LeVal(scalar[..]), LeVal(u_in[..])))
  {
    hide LeVal, Tight, Rep, Below, Ladder, Pow, Val5;
    ghost var k, v := LeVal(scalar[..]), LeVal(u_in[..]) % (2 * TOP);
    var e := ClampScalar(scalar);
    var x1, x2, z2, x3, z3 := new u64[5], new u64[5], new u64[5], new u64[5], new u64[5];
    LoadU(x1, u_in);
    Loaded(x1[..], v);
    SetSmall(x2, 1);
    SetSmall(z2, 0);
    CopyFe(x3, x1);
    SetSmall(z3, 1);
    LadderLoop(e, x1, x2, z2, x3, z3, v % P, Clamp(k));
    Finish(out, x2, z2, Ladder(v % P, Clamp(k)).0);
  }

  lemma Loaded(a: seq<u64>, v: int)
    requires Below(a, 0x8_0000_0000_0000) && FeVal(a) == v
    ensures Tight(a) && Rep(a, v % P)
  {
    CongMod(v, P);
  }

  lemma RepValue(a: seq<u64>, v: int)
    requires Rep(a, v)
    ensures |a| == 5 && FeVal(a) % P == v % P
  {}
}
