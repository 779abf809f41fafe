/** Arithmetic modulo 2^255 - 19 in five 51-bit limbs, as in kernel/x25519.c: limbs are 64-bit
    words that may run over 51 bits between carries, products are 128-bit words. */
module X25519Field {
  import opened Words

  const P := 0x7FFFFFFF_FFFFFFFF_FFFFFFFF_FFFFFFFF_FFFFFFFF_FFFFFFFF_FFFFFFFF_FFFFFFED

  /** The number five coefficients stand for in radix 2^51. */
  function Val5(a0: int, a1: int, a2: int, a3: int, a4: int): int {
    a0 + 0x8_0000_0000_0000 * a1 + 0x40_0000_0000_0000_0000_0000_0000 * a2
    + 0x200_0000_0000_0000_0000_0000_0000_0000_0000_0000 * a3
    + 0x1000_0000_0000_0000_0000_0000_0000_0000_0000_0000_0000_0000_0000 * a4
  }

  function FeVal(a: seq<u64>): int
    requires |a| == 5
  {
    Val5(a[0], a[1], a[2], a[3], a[4])
  }

  /** Every limb is below the bound. */
  predicate Below(a: seq<u64>, bound: int) {
    |a| == 5 && a[0] < bound && a[1] < bound && a[2] < bound && a[3] < bound && a[4] < bound
  }

  const LOOSE := 0x40_0000_0000_0000   // 2^54: what fe_mul accepts
  const TIGHT := 0x8_0000_0000_2000    // 2^51 + 2^13: what fe_mul leaves

  predicate Tight(a: seq<u64>) {
    Below(a, TIGHT)
  }

  /** a holds the residue of v. */
  ghost predicate Rep(a: seq<u64>, v: int) {
    |a| == 5 && Cong(FeVal(a), v, P)
  }

  // ---------------------------------------------------------------- carrying

  /** One pass of carries moves multiples of 2^51 up and 2^255 = 19 around: the value drops by
      a multiple of the prime. */
  lemma CarryValue(t0: int, t1: int, t2: int, t3: int, t4: int,
                   c0: int, c1: int, c2: int, c3: int, c4: int, c5: int,
                   r0: int, r1: int, r2: int, r3: int, r4: int, s0: int, s1: int)
    requires t0 == c0 * 0x8_0000_0000_0000 + r0
    requires t1 + c0 == c1 * 0x8_0000_0000_0000 + r1
    requires t2 + c1 == c2 * 0x8_0000_0000_0000 + r2
    requires t3 + c2 == c3 * 0x8_0000_0000_0000 + r3
    requires t4 + c3 == c4 * 0x8_0000_0000_0000 + r4
    requires r0 + 19 * c4 == c5 * 0x8_0000_0000_0000 + s0
    requires s1 == r1 + c5
    ensures Val5(s0, s1, r2, r3, r4) == Val5(t0, t1, t2, t3, t4) - c4 * P
    ensures Cong(Val5(s0, s1, r2, r3, r4), Val5(t0, t1, t2, t3, t4), P)
  {
    CongMultiple(Val5(s0, s1, r2, r3, r4), Val5(t0, t1, t2, t3, t4), -c4, P);
  }

  /** x >> 51 and x & (2^51 - 1). */
  function Hi51(x: nat): nat {
    x / 0x8_0000_0000_0000
  }

  function Lo51(x: nat): (r: nat)
    ensures r < 0x8_0000_0000_0000
  {
    MaskIs51(x);
    And(x, 0x7_FFFF_FFFF_FFFF)
  }

  lemma Pow2At51()
    ensures Pow2(51) == 0x8_0000_0000_0000
  {
    Pow2Values();
    Pow2Wide();
    Pow2Sum(32, 16, 48, 0x1_0000_0000, 0x1_0000);
    Pow2Sum(48, 3, 51, 0x1_0000_0000_0000, 8);
  }

  lemma MaskIs51(x: nat)
    ensures And(x, 0x7_FFFF_FFFF_FFFF) == x % 0x8_0000_0000_0000
  {
    Pow2At51();
    AndMask(x, 51);
  }

  lemma Cut51(x: nat)
    ensures x == Hi51(x) * 0x8_0000_0000_0000 + Lo51(x)
    ensures x < 0x1_0000_0000_0000_0000 ==> Hi51(x) < 0x2000
  {
    MaskIs51(x);
  }

  // ---------------------------------------------------------------- the product

  function T0(a: seq<int>, b: seq<int>): int
    requires |a| == 5 && |b| == 5
  {
    Prod(a[0], b[0]) + Prod(a[1], 19 * b[4]) + Prod(a[2], 19 * b[3]) + Prod(a[3], 19 * b[2]) + Prod(a[4], 19 * b[1])
  }

  function T1(a: seq<int>, b: seq<int>): int
    requires |a| == 5 && |b| == 5
  {
    Prod(a[0], b[1]) + Prod(a[1], b[0]) + Prod(a[2], 19 * b[4]) + Prod(a[3], 19 * b[3]) + Prod(a[4], 19 * b[2])
  }

  function T2(a: seq<int>, b: seq<int>): int
    requires |a| == 5 && |b| == 5
  {
    Prod(a[0], b[2]) + Prod(a[1], b[1]) + Prod(a[2], b[0]) + Prod(a[3], 19 * b[4]) + Prod(a[4], 19 * b[3])
  }

  function T3(a: seq<int>, b: seq<int>): int
    requires |a| == 5 && |b| == 5
  {
    Prod(a[0], b[3]) + Prod(a[1], b[2]) + Prod(a[2], b[1]) + Prod(a[3], b[0]) + Prod(a[4], 19 * b[4])
  }

  function T4(a: seq<int>, b: seq<int>): int
    requires |a| == 5 && |b| == 5
  {
    Prod(a[0], b[4]) + Prod(a[1], b[3]) + Prod(a[2], b[2]) + Prod(a[3], b[1]) + Prod(a[4], b[0])
  }

  /** One partial product of loose limbs. */
  lemma LimbProduct(x: int, y: int)
    requires 0 <= x < LOOSE && 0 <= y < LOOSE
    ensures 0 <= x * y < 0x1000_0000_0000_0000_0000_0000_0000
    ensures x * (19 * y) == 19 * (x * y)
  {
    MulBound(x, y, LOOSE - 1, LOOSE - 1);
  }

  lemma RowProducts(x: u64, b: seq<u64>)
    requires 0 <= x < LOOSE && Below(b, LOOSE)
    ensures forall j :: 0 <= j < 5 ==> 0 <= x * b[j] < 0x1000_0000_0000_0000_0000_0000_0000
    ensures forall j :: 0 <= j < 5 ==> x * (19 * b[j]) == 19 * (x * b[j])
  {
    LimbProduct(x, b[0]);
    LimbProduct(x, b[1]);
    LimbProduct(x, b[2]);
    LimbProduct(x, b[3]);
    LimbProduct(x, b[4]);
  }

  lemma ColumnBounds(a: seq<u64>, b: seq<u64>)
    requires Below(a, LOOSE) && Below(b, LOOSE)
    ensures 0 <= T0(a, b) <= 77 * 0xFFF_FFFF_FFFF_FFFF_FFFF_FFFF_FFFF
    ensures 0 <= T1(a, b) <= 59 * 0xFFF_FFFF_FFFF_FFFF_FFFF_FFFF_FFFF
    ensures 0 <= T2(a, b) <= 41 * 0xFFF_FFFF_FFFF_FFFF_FFFF_FFFF_FFFF
    ensures 0 <= T3(a, b) <= 23 * 0xFFF_FFFF_FFFF_FFFF_FFFF_FFFF_FFFF
    ensures 0 <= T4(a, b) <= 5 * 0xFFF_FFFF_FFFF_FFFF_FFFF_FFFF_FFFF
  {
    RowProducts(a[0], b);
    RowProducts(a[1], b);
    RowProducts(a[2], b);
    RowProducts(a[3], b);
    RowProducts(a[4], b);
  }

  lemma Distribute5(x: int, b0: int, b1: int, b2: int, b3: int, b4: int)
    ensures x * Val5(b0, b1, b2, b3, b4) == Val5(x * b0, x * b1, x * b2, x * b3, x * b4)
  {
    ScaledTerm(x, 0x8_0000_0000_0000, b1);
    ScaledTerm(x, 0x40_0000_0000_0000_0000_0000_0000, b2);
    ScaledTerm(x, 0x200_0000_0000_0000_0000_0000_0000_0000_0000_0000, b3);
    ScaledTerm(x, 0x1000_0000_0000_0000_0000_0000_0000_0000_0000_0000_0000_0000_0000, b4);
    Sum5(x, b0, 0x8_0000_0000_0000 * b1, 0x40_0000_0000_0000_0000_0000_0000 * b2,
         0x200_0000_0000_0000_0000_0000_0000_0000_0000_0000 * b3,
         0x1000_0000_0000_0000_0000_0000_0000_0000_0000_0000_0000_0000_0000 * b4);
  }

  /** The multiples of 2^255 that the factor 19 stands for. */
  function Wrapped(a: seq<int>, b: seq<int>): int
    requires |a| == 5 && |b| == 5
  {
    Val5(a[1] * b[4] + a[2] * b[3] + a[3] * b[2] + a[4] * b[1],
         a[2] * b[4] + a[3] * b[3] + a[4] * b[2],
         a[3] * b[4] + a[4] * b[3],
         a[4] * b[4],
         0)
  }

  lemma RowsSum(a: seq<u64>, b: seq<u64>)
    requires |a| == 5 && |b| == 5
    ensures FeVal(a) * FeVal(b) == Val5(a[0] * FeVal(b), a[1] * FeVal(b), a[2] * FeVal(b), a[3] * FeVal(b), a[4] * FeVal(b))
  {
    var v := FeVal(b);
    Distribute5(v, a[0], a[1], a[2], a[3], a[4]);
  }

  /** The five columns of the schoolbook product, with the overflow past 2^255 folded in. */
  lemma ColumnsAreProduct(a: seq<u64>, b: seq<u64>)
    requires Below(a, LOOSE) && Below(b, LOOSE)
    ensures FeVal(a) * FeVal(b) == Val5(T0(a, b), T1(a, b), T2(a, b), T3(a, b), T4(a, b)) + Wrapped(a, b) * P
  {
    RowsSum(a, b);
    Distribute5(a[0], b[0], b[1], b[2], b[3], b[4]);
    Distribute5(a[1], b[0], b[1], b[2], b[3], b[4]);
    Distribute5(a[2], b[0], b[1], b[2], b[3], b[4]);
    Distribute5(a[3], b[0], b[1], b[2], b[3], b[4]);
    Distribute5(a[4], b[0], b[1], b[2], b[3], b[4]);
    RowProducts(a[1], b);
    RowProducts(a[2], b);
    RowProducts(a[3], b);
    RowProducts(a[4], b);
  }

  lemma ColumnsCong(a: seq<u64>, b: seq<u64>)
    requires Below(a, LOOSE) && Below(b, LOOSE)
    ensures Cong(Val5(T0(a, b), T1(a, b), T2(a, b), T3(a, b), T4(a, b)), FeVal(a) * FeVal(b), P)
  {
    ColumnsAreProduct(a, b);
    CongMultiple(FeVal(a) * FeVal(b), Val5(T0(a, b), T1(a, b), T2(a, b), T3(a, b), T4(a, b)), Wrapped(a, b), P);
  }

  // ---------------------------------------------------------------- operations

  method Add(r: array<u64>, a: array<u64>, b: array<u64>, ghost u: int, ghost v: int)
    requires r.Length == a.Length == b.Length == 5 && r != a && r != b
    requires Tight(a[..]) && Tight(b[..]) && Rep(a[..], u) && Rep(b[..], v)
    modifies r
    ensures Below(r[..], LOOSE)
    ensures Rep(r[..], u + v)
  {
    hide Cong;
    for i := 0 to 5
      invariant forall k :: 0 <= k < i ==> r[k] == a[k] + b[k]
    {
      r[i] := a[i] + b[i];
    }
    assert FeVal(r[..]) == FeVal(a[..]) + FeVal(b[..]);
    CongAdd(FeVal(a[..]), u, FeVal(b[..]), v, P);
  }

  /** Each limb of four times the prime exceeds any tight limb, so nothing goes negative. */
  function FourP(i: int): u64 {
    if i == 0 then 0x1F_FFFF_FFFF_FFB4 else 0x1F_FFFF_FFFF_FFFC
  }

  method Sub(r: array<u64>, a: array<u64>, b: array<u64>, ghost u: int, ghost v: int)
    requires r.Length == a.Length == b.Length == 5 && r != a && r != b
    requires Tight(a[..]) && Tight(b[..]) && Rep(a[..], u) && Rep(b[..], v)
    modifies r
    ensures Below(r[..], LOOSE)
    ensures Rep(r[..], u - v)
  {
    hide Cong;
    for i := 0 to 5
      invariant forall k :: 0 <= k < i ==> r[k] == a[k] + FourP(k) - b[k]
    {
      r[i] := a[i] + FourP(i) - b[i];
    }
    assert FeVal(r[..]) == FeVal(a[..]) - FeVal(b[..]) + 4 * P;
    CongSub(FeVal(a[..]), u, FeVal(b[..]), v, P);
    CongMultiple(FeVal(r[..]), FeVal(a[..]) - FeVal(b[..]), 4, P);
    CongTrans(FeVal(r[..]), FeVal(a[..]) - FeVal(b[..]), u - v, P);
  }

  /** The carry chain shared by fe_mul and fe_mul121665: five 128-bit columns into tight limbs. */
  method CarryColumns(r: array<u64>, t0: u128, t1: u128, t2: u128, t3: u128, t4: u128)
    requires r.Length == 5
    requires t0 <= 77 * 0xFFF_FFFF_FFFF_FFFF_FFFF_FFFF_FFFF
    requires t1 <= 59 * 0xFFF_FFFF_FFFF_FFFF_FFFF_FFFF_FFFF
    requires t2 <= 41 * 0xFFF_FFFF_FFFF_FFFF_FFFF_FFFF_FFFF
    requires t3 <= 23 * 0xFFF_FFFF_FFFF_FFFF_FFFF_FFFF_FFFF
    requires t4 <= 5 * 0xFFF_FFFF_FFFF_FFFF_FFFF_FFFF_FFFF
    modifies r
    ensures Tight(r[..])
    ensures r[0] < 0x8_0000_0000_0000 && r[2] < 0x8_0000_0000_0000 && r[3] < 0x8_0000_0000_0000 && r[4] < 0x8_0000_0000_0000
    ensures Cong(FeVal(r[..]), Val5(t0, t1, t2, t3, t4), P)
  {
    hide Hi51, Lo51, Val5, Cong;
    Cut51(t0);
    var c0: u64, r0: u64 := Hi51(t0), Lo51(t0);
    var u1: u128 := t1 + c0;
    Cut51(u1);
    var c1: u64, r1: u64 := Hi51(u1), Lo51(u1);
    var u2: u128 := t2 + c1;
    Cut51(u2);
    var c2: u64, r2: u64 := Hi51(u2), Lo51(u2);
    var u3: u128 := t3 + c2;
    Cut51(u3);
    var c3: u64, r3: u64 := Hi51(u3), Lo51(u3);
    var u4: u128 := t4 + c3;
    Cut51(u4);
    var c4: u64, r4: u64 := Hi51(u4), Lo51(u4);
    var w: u64 := c4 * 19;
    var w0: u64 := r0 + w;
    Cut51(w0);
    var c5: u64 := Hi51(w0);
    r[0] := Lo51(w0);
    r[1] := r1 + c5;
    r[2], r[3], r[4] := r2, r3, r4;
    CarryValue(t0, t1, t2, t3, t4, c0, c1, c2, c3, c4, c5, r0, r1, r2, r3, r4, Lo51(w0), r1 + c5);
  }

  /** fe_mul; the result may overwrite an operand. */
  method Mul(r: array<u64>, a: array<u64>, b: array<u64>, ghost u: int, ghost v: int)
    requires r.Length == a.Length == b.Length == 5
    requires Below(a[..], LOOSE) && Below(b[..], LOOSE)
    requires Rep(a[..], u) && Rep(b[..], v)
    modifies r
    ensures Tight(r[..])
    ensures Rep(r[..], u * v)
  {
    hide Prod, FeVal, Val5, Cong;
    ghost var x, y := a[..], b[..];
    ColumnBounds(x, y);
    ColumnsCong(x, y);
    var b1: u64, b2: u64, b3: u64, b4: u64 := 19 * b[1], 19 * b[2], 19 * b[3], 19 * b[4];
    var t0: u128 := Prod(a[0], b[0]) + Prod(a[1], b4) + Prod(a[2], b3) + Prod(a[3], b2) + Prod(a[4], b1);
    var t1: u128 := Prod(a[0], b[1]) + Prod(a[1], b[0]) + Prod(a[2], b4) + Prod(a[3], b3) + Prod(a[4], b2);
    var t2: u128 := Prod(a[0], b[2]) + Prod(a[1], b[1]) + Prod(a[2], b[0]) + Prod(a[3], b4) + Prod(a[4], b3);
    var t3: u128 := Prod(a[0], b[3]) + Prod(a[1], b[2]) + Prod(a[2], b[1]) + Prod(a[3], b[0]) + Prod(a[4], b4);
    var t4: u128 := Prod(a[0], b[4]) + Prod(a[1], b[3]) + Prod(a[2], b[2]) + Prod(a[3], b[1]) + Prod(a[4], b[0]);
    CarryColumns(r, t0, t1, t2, t3, t4);
    CongTrans(FeVal(r[..]), Val5(t0, t1, t2, t3, t4), FeVal(x) * FeVal(y), P);
    CongMul(FeVal(x), u, FeVal(y), v, P);
    CongTrans(FeVal(r[..]), FeVal(x) * FeVal(y), u * v, P);
  }

  /** fe_sq. */
  method Sq(r: array<u64>, a: array<u64>, ghost u: int)
    requires r.Length == a.Length == 5 && Below(a[..], LOOSE) && Rep(a[..], u)
    modifies r
    ensures Tight(r[..])
    ensures Rep(r[..], u * u)
  {
    Mul(r, a, a, u, u);
  }

  /** fe_mul121665. */
  method Mul121665(r: array<u64>, a: array<u64>, ghost u: int)
    requires r.Length == a.Length == 5 && Below(a[..], LOOSE) && Rep(a[..], u)
    modifies r
    ensures Tight(r[..])
    ensures Rep(r[..], 121665 * u)
  {
    hide Cong;
    ghost var x := a[..];
    var t0: u128 := a[0] as int * 121665;
    var t1: u128 := a[1] as int * 121665;
    var t2: u128 := a[2] as int * 121665;
    var t3: u128 := a[3] as int * 121665;
    var t4: u128 := a[4] as int * 121665;
    CarryColumns(r, t0, t1, t2, t3, t4);
    CongRefl(121665, P);
    CongMul(121665, 121665, FeVal(x), u, P);
    CongTrans(FeVal(r[..]), 121665 * FeVal(x), 121665 * u, P);
  }

  /** fe_cswap with the mask -swap: exchanges the two iff swap is 1. */
  method CondSwap(a: array<u64>, b: array<u64>, swap: u64)
    requires a.Length == b.Length == 5 && a != b && swap <= 1
    modifies a, b
    ensures a[..] == if swap == 1 then old(b[..]) else old(a[..])
    ensures b[..] == if swap == 1 then old(a[..]) else old(b[..])
  {
    var mask := Neg64(swap);
    for i := 0 to 5
      invariant forall k :: 0 <= k < i ==> a[k] == if swap == 1 then old(b[k]) else old(a[k])
      invariant forall k :: 0 <= k < i ==> b[k] == if swap == 1 then old(a[k]) else old(b[k])
      invariant forall k :: i <= k < 5 ==> a[k] == old(a[k]) && b[k] == old(b[k])
    {
      SwapWord(a[i], b[i], swap);
      var t := And(mask, Xor(a[i], b[i]));
      var x, y := Xor(a[i], t), Xor(b[i], t);
      a[i] := x;
      b[i] := y;
    }
  }

  /** Two's complement negation of a 64-bit word. */
  function Neg64(x: u64): u64 {
    if x == 0 then 0 else 0x1_0000_0000_0000_0000 - x
  }

  lemma SwapWord(a: u64, b: u64, swap: u64)
    requires swap <= 1
    ensures
      var t := And(Neg64(swap), Xor(a, b));
      && Xor(a, t) == (if swap == 1 then b else a)
      && Xor(b, t) == (if swap == 1 then a else b)
  {
    var x := Xor(a, b);
    XorSelfInverse(a, b);
    XorCommutes(a, b);
    XorSelfInverse(b, a);
    XorWithZero(a);
    XorWithZero(b);
    MaskWord(x, swap) by {
      Pow2Wide();
      XorBound(a, b, 64);
    }
    hide Xor, And, Neg64;
  }

  lemma XorWithZero(a: nat)
    ensures Xor(a, 0) == a
  {}

  /** The all-ones mask keeps a word, the zero mask clears it. */
  lemma MaskWord(x: nat, swap: u64)
    requires swap <= 1 && x < 0x1_0000_0000_0000_0000
    ensures And(Neg64(swap), x) == if swap == 1 then x else 0
  {
    if swap == 1 {
      Pow2Wide();
      AndMask(x, 64);
      AndCommutes(0xFFFF_FFFF_FFFF_FFFF, x);
      ModSmall(x);
    }
  }

  lemma ModSmall(x: nat)
    requires x < 0x1_0000_0000_0000_0000
    ensures x % Pow2(64) == x
  {
    Pow2Wide();
    DivModUnique(x, Pow2(64), 0, x);
  }
}
