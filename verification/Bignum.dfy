/** kernel/bignum.c and its 128-limb copy kernel/bignum_4k.c: fixed-width unsigned numbers in
    arrays of 32-bit limbs, for any limb count.  The source's two copies are the instances of
    64 and 128 limbs. */
module Bignum {
  import opened Words
  import opened BigNat

  method Zero(r: array<u32>)
    modifies r
    ensures forall i :: 0 <= i < r.Length ==> r[i] == 0
    ensures Val(r[..]) == 0
  {
    for i := 0 to r.Length
      invariant forall k :: 0 <= k < i ==> r[k] == 0
    {
      r[i] := 0;
    }
    ValZero(r[..]);
  }

  /** bn_copy; the two arrays may be the same one. */
  method Copy(r: array<u32>, a: array<u32>)
    requires r.Length == a.Length
    modifies r
    ensures r[..] == old(a[..])
  {
    for i := 0 to r.Length
      invariant forall k :: 0 <= k < i ==> r[k] == old(a[k])
      invariant forall k :: i <= k < r.Length ==> r[k] == old(r[k])
      invariant a != r ==> a[..] == old(a[..])
    {
      r[i] := a[i];
    }
  }

  method IsZero(a: array<u32>) returns (z: bool)
    ensures z == (Val(a[..]) == 0)
  {
    for i := 0 to a.Length
      invariant forall k :: 0 <= k < i ==> a[k] == 0
    {
      if a[i] != 0 {
        NonZero(a[..], i);
        return false;
      }
    }
    ValZero(a[..]);
    return true;
  }

  lemma NonZero(s: seq<u32>, i: nat)
    requires i < |s| && s[i] != 0
    ensures Val(s) != 0
  {
    if Val(s) == 0 {
      ValIsZero(s);
    }
  }

  method Cmp(a: array<u32>, b: array<u32>) returns (c: int)
    requires a.Length == b.Length
    ensures c == if Val(a[..]) < Val(b[..]) then -1 else if Val(a[..]) == Val(b[..]) then 0 else 1
  {
    hide Val;
    var i := a.Length - 1;
    while i >= 0
      invariant -1 <= i < a.Length
      invariant forall k :: i < k < a.Length ==> a[k] == b[k]
    {
      if a[i] != b[i] {
        assert a[..][i + 1..] == b[..][i + 1..];
        if a[i] < b[i] {
          ValOrder(a[..], b[..], i);
          return -1;
        } else {
          ValOrder(b[..], a[..], i);
          return 1;
        }
      }
      i := i - 1;
    }
    assert a[..] == b[..];
    return 0;
  }

  // ---------------------------------------------------------------- addition and subtraction

  /** One limb of a carry chain, in whole numbers. */
  lemma CarryStep(v: int, x: int, y: int, radix: int, c0: int, c1: int, r: int, a: int, b: int)
    requires v + c0 * radix == x + y
    requires r + c1 * 0x1_0000_0000 == a + b + c0
    ensures (v + radix * r) + c1 * (0x1_0000_0000 * radix) == (x + radix * a) + (y + radix * b)
  {
    assert c1 * (0x1_0000_0000 * radix) == radix * (c1 * 0x1_0000_0000);
    MulDist(radix, r, c1 * 0x1_0000_0000);
    MulDist(radix, a + b, c0);
    MulDist(radix, a, b);
  }

  lemma AddLimb(r: seq<u32>, r0: seq<u32>, b: seq<u32>, i: nat, c0: nat, c1: nat)
    requires i < |r| == |r0| == |b|
    requires Val(r[..i]) + c0 * Radix(i) == Val(r0[..i]) + Val(b[..i])
    requires r[i] + c1 * 0x1_0000_0000 == r0[i] + b[i] + c0
    ensures Val(r[..i + 1]) + c1 * Radix(i + 1) == Val(r0[..i + 1]) + Val(b[..i + 1])
  {
    hide Val, Radix;
    RadixNext(i);
    ValSnoc(r, i);
    ValSnoc(r0, i);
    ValSnoc(b, i);
    CarryStep(Val(r[..i]), Val(r0[..i]), Val(b[..i]), Radix(i), c0, c1, r[i], r0[i], b[i]);
  }

  method AddInPlace(r: array<u32>, b: array<u32>) returns (carry: u32)
    requires r.Length == b.Length && r != b
    modifies r
    ensures carry <= 1
    ensures Val(r[..]) + carry * Radix(r.Length) == old(Val(r[..])) + Val(b[..])
  {
    carry := 0;
    ghost var r0 := r[..];
    assert r[..0] == [] && r0[..0] == [] && b[..0] == [];
    for i := 0 to r.Length
      invariant carry <= 1
      invariant forall k :: i <= k < r.Length ==> r[k] == r0[k]
      invariant Val(r[..][..i]) + carry * Radix(i) == Val(r0[..i]) + Val(b[..][..i])
    {
      var s: u64 := r[i] + b[i] + carry;
      ghost var prev, c0 := r[..], carry;
      r[i] := s % 0x1_0000_0000;
      carry := s / 0x1_0000_0000;
      assert r[..][..i] == prev[..i];
      AddLimb(r[..], r0, b[..], i, c0, carry);
    }
    ValWhole(r[..], r.Length);
    ValWhole(r0, r.Length);
    ValWhole(b[..], r.Length);
  }

  lemma SubLimb(r: seq<u32>, r0: seq<u32>, b: seq<u32>, i: nat, c0: nat, c1: nat)
    requires i < |r| == |r0| == |b|
    requires Val(r[..i]) + Val(b[..i]) == Val(r0[..i]) + c0 * Radix(i)
    requires r[i] + b[i] + c0 == r0[i] + c1 * 0x1_0000_0000
    ensures Val(r[..i + 1]) + Val(b[..i + 1]) == Val(r0[..i + 1]) + c1 * Radix(i + 1)
  {
    hide Val, Radix;
    RadixNext(i);
    ValSnoc(r, i);
    ValSnoc(r0, i);
    ValSnoc(b, i);
    CarryStep(Val(r0[..i]), Val(r[..i]), Val(b[..i]), Radix(i), c0, c1, r0[i], r[i], b[i]);
  }

  method SubInPlace(r: array<u32>, b: array<u32>) returns (borrow: u32)
    requires r.Length == b.Length && r != b
    modifies r
    ensures borrow == if old(Val(r[..])) < Val(b[..]) then 1 else 0
    ensures Val(r[..]) + Val(b[..]) == old(Val(r[..])) + borrow * Radix(r.Length)
  {
    borrow := 0;
    ghost var r0 := r[..];
    assert r[..0] == [] && r0[..0] == [] && b[..0] == [];
    for i := 0 to r.Length
      invariant borrow <= 1
      invariant forall k :: i <= k < r.Length ==> r[k] == r0[k]
      invariant Val(r[..][..i]) + Val(b[..][..i]) == Val(r0[..i]) + borrow * Radix(i)
    {
      var d := r[i] - b[i] - borrow;
      ghost var prev, c0 := r[..], borrow;
      r[i] := d % 0x1_0000_0000;
      borrow := if d < 0 then 1 else 0;
      assert r[..][..i] == prev[..i];
      SubLimb(r[..], r0, b[..], i, c0, borrow);
    }
    ValWhole(r[..], r.Length);
    ValWhole(r0, r.Length);
    ValWhole(b[..], r.Length);
    ValBound(r[..]);
    ValBound(b[..]);
  }

  /** What bn_addmod leaves: one conditional subtraction in the width of the number. */
  function AddModSpec(a: nat, b: nat, m: nat, radix: nat): nat
    requires radix > 0
  {
    if a + b >= m then (a + b - m) % radix else a + b
  }

  /** Of reduced operands that is addition modulo m. */
  lemma AddModReduced(a: nat, b: nat, m: nat, radix: nat)
    requires a < m <= radix && b < m
    ensures AddModSpec(a, b, m, radix) == (a + b) % m
  {
    if a + b >= m {
      DivModUnique(a + b, m, 1, a + b - m);
      DivModUnique(a + b - m, radix, 0, a + b - m);
    } else {
      DivModUnique(a + b, m, 0, a + b);
    }
  }

  /** It is always congruent to the sum when the sum does not outgrow the width by more than m. */
  lemma AddModCong(a: nat, b: nat, m: nat, radix: nat)
    requires m > 0 && radix > 0 && a + b < radix + m
    ensures Cong(AddModSpec(a, b, m, radix), a + b, m)
  {
    if a + b >= m {
      DivModUnique(a + b - m, radix, 0, a + b - m);
      CongMultiple(a + b - m, a + b, -1, m);
    }
  }

  method AddMod(r: array<u32>, a: array<u32>, b: array<u32>, m: array<u32>)
    requires r.Length == a.Length == b.Length == m.Length && r != b && r != m
    modifies r
    ensures Val(r[..]) == AddModSpec(old(Val(a[..])), Val(b[..]), Val(m[..]), Radix(r.Length))
  {
    ghost var va, vb, vm, R := Val(a[..]), Val(b[..]), Val(m[..]), Radix(r.Length);
    Copy(r, a);
    var carry := AddInPlace(r, b);
    ghost var t := Val(r[..]);
    var c := Cmp(r, m);
    ValBound(r[..]);
    ValBound(m[..]);
    if carry != 0 || c >= 0 {
      var borrow := SubInPlace(r, m);
      ValBound(r[..]);
      DivModUnique(va + vb - vm, R, carry - borrow, Val(r[..]));
    }
  }

  // ---------------------------------------------------------------- multiplication

  lemma MulLimb(s: seq<u32>, t: seq<u32>, b: seq<u32>, i: nat, j: nat, x: u32, ai: u32, c0: nat, c1: nat, p: nat)
    requires i + j < |s| && j < |b| && t == s[i + j := x]
    requires x + c1 * 0x1_0000_0000 == s[i + j] + ai * b[j] + c0
    requires Val(s) + c0 * Radix(i + j) == p + ai * Val(b[..j]) * Radix(i)
    ensures Val(t) + c1 * Radix(i + j + 1) == p + ai * Val(b[..j + 1]) * Radix(i)
  {
    hide Val, Radix;
    var k := i + j;
    ValUpdate(s, k, x);
    ValSnoc(b, j);
    RadixAdd(i, j);
    RadixNext(k);
    MulStep(Val(s), p, Radix(k), c0, c1, x, s[k], ai * b[j], ai * Val(b[..j]) * Radix(i));
    RowTerm(ai, Val(b[..j]), Radix(j), b[j], Radix(i));
  }

  lemma MulStep(v: int, p: int, radix: int, c0: int, c1: int, x: int, sk: int, m: int, q: int)
    requires x + c1 * 0x1_0000_0000 == sk + m + c0
    requires v + c0 * radix == p + q
    ensures v + radix * (x - sk) + c1 * (0x1_0000_0000 * radix) == p + q + radix * m
  {
    assert c1 * (0x1_0000_0000 * radix) == radix * (c1 * 0x1_0000_0000);
    MulDist(radix, x - sk, c1 * 0x1_0000_0000);
    MulDist(radix, m, c0);
  }

  lemma RowTerm(a: int, v: int, rj: int, b: int, ri: int)
    ensures a * (v + rj * b) * ri == a * v * ri + (ri * rj) * (a * b)
  {
    assert a * (v + rj * b) == a * v + a * (rj * b);
    assert (a * v + a * (rj * b)) * ri == a * v * ri + a * (rj * b) * ri;
    assert a * (rj * b) == (a * b) * rj;
    assert (a * b) * rj * ri == (ri * rj) * (a * b);
  }

  /** One limb product with carry fits in 64 bits. */
  lemma LimbProductFits(x: u32, a: u32, b: u32, c: u32)
    ensures 0 <= x + a * b + c < 0x1_0000_0000_0000_0000
  {
    MulBound(a, b, 0xFFFF_FFFF, 0xFFFF_FFFF);
  }

  lemma RowDone(s: seq<u32>, t: seq<u32>, a: seq<u32>, vb: nat, i: nat, k: nat, c: u32, p: nat)
    requires i < |a| && k < |s| && s[k] == 0 && t == s[k := c]
    requires p == Val(a[..i]) * vb
    requires Val(s) + c * Radix(k) == p + a[i] * vb * Radix(i)
    ensures Val(t) == Val(a[..i + 1]) * vb
  {
    hide Val, Radix;
    ValUpdate(s, k, c);
    ValSnoc(a, i);
    assert Radix(k) * c == c * Radix(k);
    RowSum(Val(a[..i]), Radix(i), a[i], vb);
  }

  lemma RowSum(v: int, radix: int, x: int, w: int)
    ensures (v + radix * x) * w == v * w + x * w * radix
  {
    assert (v + radix * x) * w == v * w + (radix * x) * w;
    assert (radix * x) * w == (x * w) * radix;
  }

  /** One row of the schoolbook product: r gains a[i] * b shifted by i limbs. */
  method MulRow(r: array<u32>, a: array<u32>, b: array<u32>, i: nat)
    requires a.Length == b.Length && r.Length == 2 * a.Length && i < a.Length && r != a && r != b
    requires Val(r[..]) == Val(a[..][..i]) * Val(b[..])
    requires forall k :: i + a.Length <= k < r.Length ==> r[k] == 0
    modifies r
    ensures Val(r[..]) == Val(a[..][..i + 1]) * Val(b[..])
    ensures forall k :: i + 1 + a.Length <= k < r.Length ==> r[k] == 0
  {
    var carry: u32 := 0;
    ghost var p := Val(r[..]);
    assert b[..][..0] == [];
    for j := 0 to b.Length
      invariant forall k :: i + a.Length <= k < r.Length ==> r[k] == 0
      invariant Val(r[..]) + carry * Radix(i + j) == p + a[i] * Val(b[..][..j]) * Radix(i)
    {
      LimbProductFits(r[i + j], a[i], b[j], carry);
      var t: u64 := r[i + j] + a[i] * b[j] + carry;
      ghost var prev, c0 := r[..], carry;
      r[i + j] := t % 0x1_0000_0000;
      carry := t / 0x1_0000_0000;
      assert r[..] == prev[i + j := r[i + j]];
      MulLimb(prev, r[..], b[..], i, j, r[i + j], a[i], c0, carry, p);
    }
    ghost var prev := r[..];
    r[i + b.Length] := carry;
    assert r[..] == prev[i + b.Length := carry];
    ValWhole(b[..], b.Length);
    RowDone(prev, r[..], a[..], Val(b[..]), i, i + b.Length, carry, p);
  }

  /** bn2_mul: the exact double-width product. */
  method Mul2(r: array<u32>, a: array<u32>, b: array<u32>)
    requires a.Length == b.Length && r.Length == 2 * a.Length && r != a && r != b
    modifies r
    ensures Val(r[..]) == Val(a[..]) * Val(b[..])
  {
    Zero(r);
    assert a[..][..0] == [];
    for i := 0 to a.Length
      invariant Val(r[..]) == Val(a[..][..i]) * Val(b[..])
      invariant forall k :: i + a.Length <= k < r.Length ==> r[k] == 0
    {
      MulRow(r, a, b, i);
    }
    ValWhole(a[..], a.Length);
  }

  // ---------------------------------------------------------------- reduction

  /** The modulus bn2_mod reduces by; zero stands for the width itself. */
  function Modulus(m: nat, radix: nat): (q: nat)
    requires radix > 0
    ensures q > 0
  {
    if m == 0 then radix else m
  }

  lemma ShlLimb(r: seq<u32>, r0: seq<u32>, i: nat, c0: nat, c1: nat)
    requires i < |r| == |r0|
    requires Val(r[..i]) + c0 * Radix(i) == 2 * Val(r0[..i])
    requires r[i] + c1 * 0x1_0000_0000 == 2 * r0[i] + c0
    ensures Val(r[..i + 1]) + c1 * Radix(i + 1) == 2 * Val(r0[..i + 1])
  {
    hide Val, Radix;
    RadixNext(i);
    ValSnoc(r, i);
    ValSnoc(r0, i);
    CarryStep(Val(r[..i]), Val(r0[..i]), Val(r0[..i]), Radix(i), c0, c1, r[i], r0[i], r0[i]);
  }

  /** (x << 1) | carry in a 32-bit word. */
  function ShlWord(x: u32, c: u32): (r: u32)
    requires c <= 1
    ensures r + x / 0x8000_0000 * 0x1_0000_0000 == 2 * x + c
  {
    OrLowBit(2 * x % 0x1_0000_0000, c);
    Or(2 * x % 0x1_0000_0000, c)
  }

  lemma OrLowBit(y: nat, c: nat)
    requires y % 2 == 0 && c <= 1
    ensures Or(y, c) == y + c
  {
    hide Or;
    Pow2Values();
    assert y == y / 2 * 2;
    OrDisjoint(y / 2, c, 1);
  }

  /** Shift a number left by one bit in place; the bit shifted out is returned. */
  method ShlOne(r: array<u32>) returns (carry: u32)
    modifies r
    ensures carry <= 1
    ensures Val(r[..]) + carry * Radix(r.Length) == 2 * old(Val(r[..]))
  {
    carry := 0;
    ghost var r0 := r[..];
    assert r[..0] == [] && r0[..0] == [];
    for i := 0 to r.Length
      invariant carry <= 1
      invariant forall k :: i <= k < r.Length ==> r[k] == r0[k]
      invariant Val(r[..][..i]) + carry * Radix(i) == 2 * Val(r0[..i])
    {
      var hi: u32 := r[i] / 0x8000_0000;
      ghost var prev, c0 := r[..], carry;
      r[i] := ShlWord(r[i], carry);
      carry := hi;
      assert r[..][..i] == prev[..i];
      ShlLimb(r[..], r0, i, c0, carry);
    }
    ValWhole(r[..], r.Length);
    ValWhole(r0, r.Length);
  }

  lemma ShlEven(s: seq<u32>, carry: nat, v: nat)
    requires |s| > 0 && Val(s) + carry * Radix(|s|) == 2 * v
    ensures s[0] % 2 == 0
  {
    hide Val;
    ValCons(s);
    RadixNext(|s| - 1);
    hide Radix;
    EvenWord(carry, Radix(|s| - 1));
    EvenSum(s[0], Val(s[1..]), carry * (0x8000_0000 * Radix(|s| - 1)), v);
  }

  lemma EvenWord(c: int, radix: int)
    ensures c * (0x1_0000_0000 * radix) == 2 * (c * (0x8000_0000 * radix))
  {}

  lemma EvenSum(x: int, h: int, c: int, v: int)
    requires x + 0x1_0000_0000 * h + 2 * c == 2 * v
    ensures x % 2 == 0
  {}

  lemma SetLowBit(s: seq<u32>, bit: u32)
    requires |s| > 0 && s[0] % 2 == 0 && bit <= 1
    ensures Or(s[0], bit) < 0x1_0000_0000
    ensures
      var low: u32 := Or(s[0], bit);
      Val(s[0 := low]) == Val(s) + bit
  {
    OrLowBit(s[0], bit);
    var low: u32 := s[0] + bit;
    assert s[0 := low][1..] == s[1..];
  }

  /** bn_bit. */
  function Bit(a: seq<u32>, bit: nat): (r: u32)
    requires bit < 32 * |a|
    ensures r <= 1
  {
    AndOne(Shr(a[bit / 32], bit % 32));
    And(Shr(a[bit / 32], bit % 32), 1)
  }

  lemma BitIs(a: seq<u32>, bit: nat)
    requires bit < 32 * |a|
    ensures Bit(a, bit) == Val(a) / Pow2(bit) % 2
  {
    Pow2Values();
    hide Val, And, Pow2;
    var q, s := bit / 32, bit % 32;
    AndOne(Shr(a[q], s));
    FieldAt(a, q, s, 1);
    assert 32 * q + s == bit;
    ModSame(Val(a) / Pow2(bit), Pow2(1), 2);
    ModSame(a[q] / Pow2(s), Pow2(1), 2);
  }

  /** Bit-serial reduction: shifting the next bit into a remainder. */
  lemma NextBit(v: nat, bit: nat, q: nat)
    requires q > 0
    ensures v / Pow2(bit) % q == (2 * (v / Pow2(bit + 1) % q) + v / Pow2(bit) % 2) % q
  {
    var x, y := v / Pow2(bit), v / Pow2(bit + 1);
    DivDiv(v, Pow2(bit), 2);
    assert x == 2 * y + x % 2;
    CongMod(y, q);
    CongAdd(y % q, y, y % q, y, q);
    CongAdd(2 * (y % q), 2 * y, x % 2, x % 2, q);
  }

  /** One conditional subtraction brings 2 rem + bit back below the modulus. */
  lemma SubOnce(rem: nat, bit: nat, m: nat, radix: nat, t: nat, carry: nat, out: nat)
    requires radix > 1 && m < radix && rem < Modulus(m, radix) && bit <= 1 && carry <= 1 && t < radix
    requires t + carry * radix == 2 * rem + bit
    requires carry != 0 || t >= m ==> out < radix && (out + m == t || out + m == t + radix)
    requires carry == 0 && t < m ==> out == t
    ensures out == (2 * rem + bit) % Modulus(m, radix)
  {
    var w, q := 2 * rem + bit, Modulus(m, radix);
    if m == 0 {
      DivModUnique(w, q, carry, t);
    } else if carry != 0 || t >= m {
      DivModUnique(w, q, 1, w - m);
    } else {
      DivModUnique(w, q, 0, w);
    }
  }

  /** if (overflow || rem >= m) rem -= m. */
  method SubIfAbove(rem: array<u32>, m: array<u32>, overflow: u32)
    requires rem.Length == m.Length && rem != m
    modifies rem
    ensures Val(rem[..]) < Radix(m.Length)
    ensures
      var t, v, out := old(Val(rem[..])), Val(m[..]), Val(rem[..]);
      if overflow != 0 || t >= v then out + v == t || out + v == t + Radix(m.Length) else out == t
  {
    hide Val, Radix;
    ValBound(rem[..]);
    var c := Cmp(rem, m);
    if overflow != 0 || c >= 0 {
      var borrow := SubInPlace(rem, m);
      ValBound(rem[..]);
    }
  }

  /** One step of bn2_mod. */
  method ModBit(rem: array<u32>, m: array<u32>, bit: u32)
    requires rem.Length == m.Length > 0 && rem != m && bit <= 1
    requires Val(rem[..]) < Modulus(Val(m[..]), Radix(m.Length))
    modifies rem
    ensures Val(rem[..]) == (2 * old(Val(rem[..])) + bit) % Modulus(Val(m[..]), Radix(m.Length))
  {
    RadixNext(rem.Length - 1);
    hide Val, Radix, Modulus, Or;
    ghost var v0, vm, R := Val(rem[..]), Val(m[..]), Radix(m.Length);
    var overflow := ShlOne(rem);
    ShlEven(rem[..], overflow, v0);
    SetLowBit(rem[..], bit);
    ghost var s := rem[..];
    var low: u32 := Or(rem[0], bit);
    rem[0] := low;
    assert rem[..] == s[0 := low];
    ghost var t := Val(rem[..]);
    ValBound(rem[..]);
    ValBound(m[..]);
    SubIfAbove(rem, m, overflow);
    SubOnce(v0, bit, vm, R, t, overflow, Val(rem[..]));
  }

  /** bn2_mod. */
  method Mod2(r: array<u32>, prod: array<u32>, m: array<u32>)
    requires r.Length == m.Length > 0 && prod.Length == 2 * m.Length
    modifies r
    ensures Val(r[..]) == old(Val(prod[..]) % Modulus(Val(m[..]), Radix(m.Length)))
  {
    hide Val, Radix, Modulus, Bit, And, Pow2;
    var rem := new u32[m.Length];
    Zero(rem);
    ghost var s, v, q := prod[..], Val(prod[..]), Modulus(Val(m[..]), Radix(m.Length));
    var bit := prod.Length * 32;
    AllBits(s);
    ModRange(0, q);
    DivModUnique(0, q, 0, 0);
    while bit > 0
      invariant 0 <= bit <= prod.Length * 32
      invariant prod[..] == s && Modulus(Val(m[..]), Radix(m.Length)) == q
      invariant Val(rem[..]) == v / Pow2(bit) % q
    {
      bit := bit - 1;
      BitIs(s, bit);
      NextBit(v, bit, q);
      ModRange(v / Pow2(bit + 1), q);
      ModBit(rem, m, Bit(prod[..], bit));
    }
    Pow2Values();
    Copy(r, rem);
  }

  lemma ModRange(x: int, q: int)
    requires q > 0
    ensures 0 <= x % q < q
  {}

  lemma AllBits(s: seq<u32>)
    ensures Val(s) / Pow2(32 * |s|) == 0
  {
    ValBound(s);
    RadixIsPow2(|s|);
    DivModUnique(Val(s), Pow2(32 * |s|), 0, Val(s));
  }

  /** bn_mulmod; the result may overwrite an operand. */
  method MulMod(r: array<u32>, a: array<u32>, b: array<u32>, m: array<u32>)
    requires r.Length == a.Length == b.Length == m.Length > 0
    modifies r
    ensures Val(r[..]) == old(Val(a[..]) * Val(b[..]) % Modulus(Val(m[..]), Radix(m.Length)))
  {
    var prod := new u32[2 * a.Length];
    Mul2(prod, a, b);
    Mod2(r, prod, m);
  }

  // ---------------------------------------------------------------- exponentiation

  /** The low i bits of an exponent. */
  function Low(e: nat, i: nat): nat {
    e % Pow2(i)
  }

  lemma LowNext(e: nat, i: nat)
    ensures Low(e, i + 1) == Low(e, i) + (e / Pow2(i) % 2) * Pow2(i)
  {
    var p := Pow2(i);
    var q := e / p;
    var b := q % 2;
    assert e == q * p + e % p;
    assert q == 2 * (q / 2) + b;
    assert (2 * (q / 2) + b) * p == (q / 2) * (2 * p) + b * p;
    MulBound(b, p, 1, p);
    DivModUnique(e, 2 * p, q / 2, e % p + b * p);
  }

  lemma PowDouble(b: int, i: nat)
    ensures Pow(b, Pow2(i + 1)) == Pow(b, Pow2(i)) * Pow(b, Pow2(i))
  {
    PowAdd(b, Pow2(i), Pow2(i));
  }

  /** bn_modexp without its final reduction guarantee: an exponent of zero gives 1. */
  function ModExpSpec(b: nat, e: nat, q: nat): nat
    requires q > 0
  {
    if e == 0 then 1 else Pow(b, e) % q
  }

  /** It is the power modulo q except for exponent 0 and modulus 1. */
  lemma ModExpExact(b: nat, e: nat, q: nat)
    requires q > 0
    ensures ModExpSpec(b, e, q) == Pow(b, e) % q <==> !(e == 0 && q == 1)
  {
    if e == 0 {
      if q > 1 {
        DivModUnique(1, q, 0, 1);
      }
    }
  }

  /** The highest set bit, or -1. */
  method TopBit(a: array<u32>) returns (top: int)
    ensures -1 <= top < 32 * a.Length
    ensures Val(a[..]) / Pow2(top + 1) == 0
    ensures top >= 0 ==> Val(a[..]) / Pow2(top) % 2 == 1
  {
    AllBits(a[..]);
    var i := 32 * a.Length - 1;
    while i >= 0
      invariant -1 <= i < 32 * a.Length
      invariant Val(a[..]) / Pow2(i + 1) == 0
    {
      BitIs(a[..], i);
      if Bit(a[..], i) != 0 {
        return i;
      }
      DivDiv(Val(a[..]), Pow2(i), 2);
      i := i - 1;
    }
    return -1;
  }

  lemma TopBitValue(e: nat, top: int)
    requires top >= -1 && e / Pow2(top + 1) == 0
    ensures e < Pow2(top + 1) && Low(e, top + 1) == e
    ensures top == -1 ==> e == 0
    ensures top >= 0 && e / Pow2(top) % 2 == 1 ==> e > 0
  {
    var p := Pow2(top + 1);
    assert e == (e / p) * p + e % p;
    if top >= 0 && e == 0 {
      DivModUnique(0, Pow2(top), 0, 0);
    }
  }

  /** The square-and-multiply invariant: result and b carry base^(e mod 2^i) and base^(2^i). */
  ghost predicate Powers(result: nat, b: nat, base: nat, e: nat, i: nat, q: nat)
    requires q > 0
  {
    Cong(result, Pow(base, Low(e, i)), q) && Cong(b, Pow(base, Pow2(i)), q)
  }

  lemma PowersStart(base: nat, e: nat, q: nat)
    requires q > 0
    ensures Powers(1, base, base, e, 0, q)
  {
    assert Low(e, 0) == 0;
    assert Pow(base, 1) == base * Pow(base, 0);
  }

  lemma PowersMul(result: nat, b: nat, base: nat, e: nat, i: nat, q: nat)
    requires q > 0 && Powers(result, b, base, e, i, q) && e / Pow2(i) % 2 == 1
    ensures result * b % q == Pow(base, Low(e, i + 1)) % q
    ensures Cong(result * b % q, Pow(base, Low(e, i + 1)), q)
  {
    hide Low, Pow, Pow2;
    LowNext(e, i);
    PowAdd(base, Low(e, i), Pow2(i));
    CongMul(result, Pow(base, Low(e, i)), b, Pow(base, Pow2(i)), q);
    CongMod(result * b, q);
  }

  lemma PowersSkip(result: nat, b: nat, base: nat, e: nat, i: nat, q: nat)
    requires q > 0 && Powers(result, b, base, e, i, q) && e / Pow2(i) % 2 == 0
    ensures Cong(result, Pow(base, Low(e, i + 1)), q)
  {
    hide Low, Pow, Pow2;
    LowNext(e, i);
  }

  lemma PowersSquare(result: nat, b: nat, base: nat, e: nat, i: nat, q: nat)
    requires q > 0 && Powers(result, b, base, e, i, q)
    ensures Cong(b * b % q, Pow(base, Pow2(i + 1)), q)
  {
    hide Low, Pow, Pow2;
    PowDouble(base, i);
    CongMul(b, Pow(base, Pow2(i)), b, Pow(base, Pow2(i)), q);
    CongMod(b * b, q);
  }

  lemma PowersJoin(result: nat, b: nat, base: nat, e: nat, i: nat, q: nat)
    requires q > 0 && Cong(result, Pow(base, Low(e, i)), q) && Cong(b, Pow(base, Pow2(i)), q)
    ensures Powers(result, b, base, e, i, q)
  {}

  /** bn_modexp: right-to-left binary exponentiation. */
  method ModExp(r: array<u32>, base: array<u32>, exp: array<u32>, m: array<u32>)
    requires r.Length == base.Length == exp.Length == m.Length > 0
    modifies r
    ensures Val(r[..]) == old(ModExpSpec(Val(base[..]), Val(exp[..]), Modulus(Val(m[..]), Radix(m.Length))))
  {
    hide Val, Radix, Modulus, Bit, And, Pow2, Pow, Powers, Low, ModExpSpec;
    var result, b := new u32[r.Length], new u32[r.Length];
    One(result);
    Copy(b, base);
    ghost var s, vb, q := exp[..], Val(base[..]), Modulus(Val(m[..]), Radix(m.Length));
    ghost var e := Val(s);
    var top := TopBit(exp);
    TopBitValue(e, top);
    ModExpCases(vb, e, q);
    if top < 0 {
      Copy(r, result);
      return;
    }
    PowersStart(vb, e, q);
    for i := 0 to top + 1
      invariant exp[..] == s && Modulus(Val(m[..]), Radix(m.Length)) == q
      invariant i <= top ==> Powers(Val(result[..]), Val(b[..]), vb, e, i, q)
      invariant i > top ==> Val(result[..]) == Pow(vb, e) % q
    {
      BitIs(s, i);
      ghost var vr, vp := Val(result[..]), Val(b[..]);
      if Bit(exp[..], i) != 0 {
        PowersMul(vr, vp, vb, e, i, q);
        MulMod(result, result, b, m);
      } else {
        PowersSkip(vr, vp, vb, e, i, q);
      }
      if i < top {
        PowersSquare(vr, vp, vb, e, i, q);
        MulMod(b, b, b, m);
        PowersJoin(Val(result[..]), Val(b[..]), vb, e, i + 1, q);
      }
    }
    Copy(r, result);
  }

  method One(r: array<u32>)
    requires r.Length > 0
    modifies r
    ensures Val(r[..]) == 1
  {
    Zero(r);
    ghost var z := r[..];
    r[0] := 1;
    assert r[..] == z[0 := 1];
    ValUpdate(z, 0, 1);
  }

  lemma ModExpCases(b: nat, e: nat, q: nat)
    requires q > 0
    ensures ModExpSpec(b, e, q) == if e == 0 then 1 else Pow(b, e) % q
  {}

  // ---------------------------------------------------------------- bytes

  /** The limbs hold the last i bytes of be, and nothing above them. */
  ghost predicate Loaded(r: seq<u32>, be: seq<u8>, i: nat)
    requires i <= |be|
  {
    && Val(r) == BeVal(be[|be| - i..])
    && (forall k :: i / 4 < k < |r| ==> r[k] == 0)
    && (i / 4 < |r| ==> r[i / 4] < Pow2(8 * (i % 4)))
  }

  /** A byte or-ed into a limb at byte position s. */
  function JoinByte(limb: u32, x: u8, s: nat): u32 {
    Or32(limb, Shl32(x, 8 * s))
  }

  lemma LoadedStart(r: seq<u32>, be: seq<u8>)
    requires Val(r) == 0 && forall k :: 0 <= k < |r| ==> r[k] == 0
    ensures Loaded(r, be, 0)
  {
    hide Val;
    assert be[|be|..] == [];
    Pow2Values();
  }

  lemma LoadByte(r: seq<u32>, be: seq<u8>, i: nat)
    requires i < |be| && i / 4 < |r| && Loaded(r, be, i)
    ensures Loaded(r[i / 4 := JoinByte(r[i / 4], be[|be| - 1 - i], i % 4)], be, i + 1)
  {
    hide Val, BeVal, JoinByte, Pow2, Radix, Radix8;
    var x, q, s := be[|be| - 1 - i], i / 4, i % 4;
    BytePlace(r[q], x, s);
    var limb := JoinByte(r[q], x, s);
    ValUpdate(r, q, limb);
    Radix8Limb(i);
    BeValFront(be, |be| - i);
    ShiftWeight(Radix(q), x, Pow2(8 * s));
    NextLimb(r[q := limb], i);
  }

  lemma ShiftWeight(radix: int, x: int, p: int)
    ensures radix * (x * p) == x * (p * radix)
  {}

  lemma NextLimb(r: seq<u32>, i: nat)
    requires i / 4 < |r| && r[i / 4] < Pow2(8 * (i % 4 + 1))
    requires forall k :: i / 4 < k < |r| ==> r[k] == 0
    ensures forall k :: (i + 1) / 4 < k < |r| ==> r[k] == 0
    ensures (i + 1) / 4 < |r| ==> r[(i + 1) / 4] < Pow2(8 * ((i + 1) % 4))
  {
    if i % 4 == 3 {
      Pow2Values();
    }
  }

  /** A byte joined above the s bytes a limb already holds. */
  lemma BytePlace(limb: u32, x: u8, s: nat)
    requires s < 4 && limb < Pow2(8 * s)
    ensures JoinByte(limb, x, s) == limb + x * Pow2(8 * s)
    ensures JoinByte(limb, x, s) < Pow2(8 * (s + 1))
  {
    hide Or, Pow2;
    var p := Pow2(8 * s);
    Pow2Values();
    Pow2Wide();
    Pow2Add(8 * s, 8);
    Pow2Add(8 * (s + 1), 32 - 8 * (s + 1));
    MulMono(x, 255, p);
    MulMono(1, Pow2(32 - 8 * (s + 1)), 256 * p);
    DivModUnique(x * p, 0x1_0000_0000, 0, x * p);
    OrDisjoint(x, limb, 8 * s);
  }

  /** bn_from_be: bytes that do not fit are dropped from the front. */
  method FromBe(r: array<u32>, be: seq<u8>)
    modifies r
    ensures Val(r[..]) == BeVal(be) % Radix(r.Length)
  {
    hide Val, BeVal, Radix, Loaded, JoinByte;
    Zero(r);
    LoadedStart(r[..], be);
    LoadedVal(r[..], be, 0);
    var i := 0;
    var k := |be|;
    while k > 0
      invariant 0 <= k && k + i == |be|
      invariant i <= 4 * r.Length ==> Loaded(r[..], be, i)
      invariant i >= 4 * r.Length ==> Val(r[..]) == BeVal(be[|be| - 4 * r.Length..])
    {
      var limb := i / 4;
      if limb < r.Length {
        LoadByte(r[..], be, i);
        ghost var s := r[..];
        r[limb] := JoinByte(r[limb], be[k - 1], i % 4);
        assert r[..] == s[limb := r[limb]];
        LoadedVal(r[..], be, i + 1);
      }
      k := k - 1;
      i := i + 1;
    }
    if i <= 4 * r.Length {
      LoadedVal(r[..], be, i);
    }
    assert be[0..] == be;
    LoadedAll(r[..], be);
  }

  lemma LoadedVal(r: seq<u32>, be: seq<u8>, i: nat)
    requires i <= |be| && Loaded(r, be, i)
    ensures Val(r) == BeVal(be[|be| - i..])
  {}

  lemma LoadedAll(r: seq<u32>, be: seq<u8>)
    requires |be| <= 4 * |r| ==> Val(r) == BeVal(be)
    requires |be| > 4 * |r| ==> Val(r) == BeVal(be[|be| - 4 * |r|..])
    ensures Val(r) == BeVal(be) % Radix(|r|)
  {
    hide Val, BeVal, Radix, Radix8;
    ValBound(r);
    if |be| <= 4 * |r| {
      DivModUnique(BeVal(be), Radix(|r|), 0, BeVal(be));
    } else {
      var cut := |be| - 4 * |r|;
      assert be == be[..cut] + be[cut..];
      BeValAppend(be[..cut], be[cut..]);
      Radix8Whole(|r|);
      DivModUnique(BeVal(be), Radix(|r|), BeVal(be[..cut]), Val(r));
    }
  }

  lemma Radix8Whole(n: nat)
    ensures Radix8(4 * n) == Radix(n)
  {
    Radix8Limb(4 * n);
    Pow2Values();
  }

  /** bn_to_be: the low n bytes, zeros above the number. */
  method ToBe(out: array<u8>, n: nat, a: array<u32>)
    requires n <= out.Length
    modifies out
    ensures out[..n] == IntToBytes(Val(a[..]), n)
    ensures out[n..] == old(out[n..])
  {
    for i := 0 to n
      invariant forall k :: 0 <= k < i ==> out[k] == IntToBytes(Val(a[..]), n)[k]
      invariant forall k :: n <= k < out.Length ==> out[k] == old(out[k])
    {
      var src := n - 1 - i;
      var limb := src / 4;
      IntToBytesAt(Val(a[..]), n, i);
      if limb < a.Length {
        ByteOfLimb(a[..], src);
        out[i] := Shr(a[limb], 8 * (src % 4)) % 256;
      } else {
        ByteBeyond(a[..], src);
        out[i] := 0;
      }
    }
  }
}
