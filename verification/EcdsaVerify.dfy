/** Signature verification on P-256 (section 6.4 of FIPS 186-4), from the two numbers of the signature
    on. */
module EcdsaVerify {
  import opened Words
  import opened BigNat
  import opened Bignum
  import opened EcAlgebra
  import opened EcCurve
  import opened Ecdsa
  import opened P256Domain
  import opened EcGroup

  const P256_N: seq<u8> := [0xFF, 0xFF, 0xFF, 0xFF, 0x00, 0x00, 0x00, 0x00,
                            0xFF, 0xFF, 0xFF, 0xFF, 0xFF, 0xFF, 0xFF, 0xFF,
                            0xBC, 0xE6, 0xFA, 0xAD, 0xA7, 0x17, 0x9E, 0x84,
                            0xF3, 0xB9, 0xCA, 0xC2, 0xFC, 0x63, 0x25, 0x51]

  /** The order of the base point. */
  const ORDER := 0xFFFFFFFF_00000000_FFFFFFFF_FFFFFFFF_BCE6FAAD_A7179E84_F3B9CAC2_FC632551

  lemma OrderValue()
    ensures BeVal(P256_N) == ORDER
  {
    hide BeVal;
    BeWhole(P256_N);
  }

  lemma OrderIs()
    ensures ORDER == Pow2(256) - Pow2(224) + Pow2(192) - 89188191075325690597107910205041859247
  {
    DomainPowers();
    hide Pow2;
  }

  /** The point R = u1 G + u2 Q as the code adds it up. */
  function Sum(q: Pt, u1: nat, u2: nat): Pt {
    Add(Mul(Base(), u1, P256()), Mul(q, u2, P256()), P256())
  }

  /** The abscissa of R, through the power of Z that stands for its inverse. */
  function Abscissa(p: Pt): nat {
    var i := Pow(p.z, P256() - 2);
    Reduce(p.x * (i * i), P256())
  }

  /** The signature (r, s) of a hash value h is accepted under the public point q. */
  predicate Accepts(q: Pt, r: nat, s: nat, h: nat) {
    && 0 < r < ORDER && 0 < s < ORDER
    && var w := Pow(s, ORDER - 2) % ORDER;
       var p := Sum(q, h % ORDER * w % ORDER, r * w % ORDER);
       p.z != 0 && Abscissa(p) % ORDER == r
  }

  /** The loops that subtract n until the number is below it. */
  method ReduceLoop(e: array<u32>, n: array<u32>)
    requires Bn(e) && Bn(n) && e != n && Val(n[..]) > 0
    modifies e
    ensures Val(e[..]) == old(Val(e[..])) % Val(n[..])
  {
    hide Val, Radix;
    ghost var v, m := Val(e[..]), Val(n[..]);
    ghost var k := 0;
    var c := Cmp(e, n);
    while c >= 0
      invariant n[..] == old(n[..]) && c == (if Val(e[..]) < m then -1 else if Val(e[..]) == m then 0 else 1)
      invariant v == k * m + Val(e[..])
      decreases Val(e[..])
    {
      var borrow := SubInPlace(e, n);
      assert (k + 1) * m == k * m + m;
      k := k + 1;
      c := Cmp(e, n);
    }
    DivModUnique(v, m, k, Val(e[..]));
  }

  method LoadOrder(n: array<u32>)
    requires Bn(n)
    modifies n
    ensures Val(n[..]) == ORDER
  {
    OrderValue();
    LoadFits(P256_N);
    FromBe(n, P256_N);
    hide BeVal, Val, Radix;
  }

  /** A number of 32 bytes fits the 64 limbs, and is a coordinate. */
  lemma LoadFits(be: seq<u8>)
    requires |be| == 32
    ensures BeVal(be) % Radix(BN_LIMBS) == BeVal(be) && BeVal(be) < Coord()
  {
    hide BeVal, Radix;
    BeValBound(be);
    Radix8Whole(8);
    Rsa.Fits(be, BN_LIMBS);
  }

  /** A point with two coordinates of 32 bytes and Z = 1. */
  method LoadPoint(p: EcPt, x: seq<u8>, y: seq<u8>)
    requires p.Ok() && |x| == |y| == 32
    modifies p.X, p.Y, p.Z
    ensures p.Value() == Pt(BeVal(x), BeVal(y), 1) && Small(p.Value(), Coord())
  {
    hide Val, BeVal, Radix;
    LoadFits(x);
    LoadFits(y);
    FromBe(p.X, x);
    FromBe(p.Y, y);
    One(p.Z);
    OneSmall();
    hide Coord;
  }

  lemma OneSmall()
    ensures 1 < Coord()
  {
    PrimeFits();
    hide Coord;
  }

  /** u1 and u2 from the hash, r and s. */
  method Scalars(u1: array<u32>, u2: array<u32>, r: array<u32>, s: array<u32>, hash: seq<u8>, n: array<u32>)
    requires Bn(u1) && Bn(u2) && Bn(r) && Bn(s) && Bn(n) && Val(n[..]) == ORDER && |hash| == 32
    requires {u1, u2} !! {r, s, n} && u1 != u2
    modifies u1, u2
    ensures
      var w := Pow(Val(s[..]), ORDER - 2) % ORDER;
      Val(u1[..]) == BeVal(hash) % ORDER * w % ORDER && Val(u2[..]) == Val(r[..]) * w % ORDER
  {
    hide Val, BeVal, Radix, Pow;
    LoadFits(hash);
    var e, w := new u32[BN_LIMBS], new u32[BN_LIMBS];
    FromBe(e, hash);
    ReduceLoop(e, n);
    FInv(w, s, n);
    MulMod(u1, e, w, n);
    MulMod(u2, r, w, n);
  }

  /** The multiple of the point with the two coordinates. */
  method Multiple(p: EcPt, x: seq<u8>, y: seq<u8>, k: array<u32>)
    requires p.Ok() && |x| == |y| == 32 && Bn(k) && k != p.X && k != p.Y && k != p.Z
    modifies p.X, p.Y, p.Z
    ensures p.Value() == Mul(Pt(BeVal(x), BeVal(y), 1), Val(k[..]), P256()) && Small(p.Value(), Coord())
  {
    hide Val, BeVal, Radix, Mul, P256, Small, Coord;
    var q := new EcPt();
    LoadPoint(q, x, y);
    PtMul(p, q, k);
    MulStaysSmall(q.Value(), Val(k[..]));
  }

  /** R as the two multiples and their sum. */
  method SumPoint(p: EcPt, qx: seq<u8>, qy: seq<u8>, u1: array<u32>, u2: array<u32>)
    requires p.Ok() && |qx| == |qy| == 32 && Bn(u1) && Bn(u2)
    requires u1 != p.X && u1 != p.Y && u1 != p.Z && u2 != p.X && u2 != p.Y && u2 != p.Z
    modifies p.X, p.Y, p.Z
    ensures p.Value() == Sum(Pt(BeVal(qx), BeVal(qy), 1), Val(u1[..]), Val(u2[..]))
  {
    hide Val, BeVal, Radix, Mul, Add, P256, Small, Coord;
    var a := new EcPt();
    var b := new EcPt();
    Multiple(a, GX, GY, u1);
    Multiple(b, qx, qy, u2);
    PtAdd(p, a, b);
  }

  /** Both numbers lie between 1 and n - 1. */
  method InRange(r: array<u32>, s: array<u32>, n: array<u32>) returns (ok: bool)
    requires Bn(r) && Bn(s) && Bn(n)
    ensures ok <==> 0 < Val(r[..]) < Val(n[..]) && 0 < Val(s[..]) < Val(n[..])
  {
    hide Val;
    var zr := IsZero(r);
    var zs := IsZero(s);
    if zr || zs { return false; }
    var cr := Cmp(r, n);
    var cs := Cmp(s, n);
    return cr < 0 && cs < 0;
  }

  /** The abscissa of R against r. */
  method Matches(p: EcPt, r: array<u32>, n: array<u32>) returns (ok: bool)
    requires p.Ok() && Bn(r) && Bn(n) && Val(n[..]) == ORDER
    ensures ok <==> p.Value().z != 0 && Abscissa(p.Value()) % ORDER == Val(r[..])
  {
    hide Val, Radix, Pow, P256, Reduce;
    var m, x := new u32[BN_LIMBS], new u32[BN_LIMBS];
    LoadPrime(m);
    var finite := ToAffineX(x, p, m);
    if !finite { return false; }
    ReduceLoop(x, n);
    var c := Cmp(x, r);
    return c == 0;
  }

  /** ecdsa_p256_sha256_verify from the parsed numbers and the hash on: it accepts exactly when the
      numbers are in range, R is not at infinity and its abscissa is r modulo the order. */
  method Verify(qx: seq<u8>, qy: seq<u8>, r: array<u32>, s: array<u32>, hash: seq<u8>) returns (ok: bool)
    requires |qx| == |qy| == |hash| == 32 && Bn(r) && Bn(s)
    ensures ok <==> Accepts(Pt(BeVal(qx), BeVal(qy), 1), Val(r[..]), Val(s[..]), BeVal(hash))
  {
    hide Val, BeVal, Radix, Pow, P256, Sum, Abscissa;
    var n := new u32[BN_LIMBS];
    LoadOrder(n);
    ok := InRange(r, s, n);
    if !ok { return; }
    var u1, u2 := new u32[BN_LIMBS], new u32[BN_LIMBS];
    Scalars(u1, u2, r, s, hash, n);
    var p := new EcPt();
    SumPoint(p, qx, qy, u1, u2);
    ok := Matches(p, r, n);
  }

  // ---------------------------------------------------------------- what the numbers mean

  /** The two multipliers are h / s and r / s modulo the order, when Fermat's identity holds for s. */
  lemma ScalarsAreQuotients(r: nat, s: nat, h: nat)
    requires Cong(Pow(s, ORDER - 1), 1, ORDER)
    ensures
      var w := Pow(s, ORDER - 2) % ORDER;
      Cong(h % ORDER * w % ORDER * s, h, ORDER) && Cong(r * w % ORDER * s, r, ORDER)
  {
    hide Pow, Cong;
    var p := Pow(s, ORDER - 2);
    PowLast(s, ORDER - 1);
    Quotient(h % ORDER, s, p, ORDER);
    Quotient(r, s, p, ORDER);
    CongMod(h, ORDER);
    CongTrans(h % ORDER * (p % ORDER) % ORDER * s, h % ORDER, h, ORDER);
  }

  /** The abscissa the code computes is that of u1 G + u2 Q: when f and g list the multiples of the two
      points, their steps and the last addition meet no exceptional pair, and Fermat's identity holds
      for the Z of the sum. */
  lemma SumAbscissa(f: nat -> Affine, g: nat -> Affine, q: Pt, u1: nat, u2: nat, t: Affine)
    requires u1 >= 1 && Multiples(f, u1, P256()) && Stands(Base(), f(1), P256())
    requires u2 >= 1 && Multiples(g, u2, P256()) && Stands(q, g(1), P256())
    requires Chord(f(u1), g(u2), t, P256())
    requires Cong(Sum(q, u1, u2).z * Pow(Sum(q, u1, u2).z, P256() - 2), 1, P256())
    ensures Abscissa(Sum(q, u1, u2)) == t.x % P256()
  {
    hide P256, Base, Mul, Add, Multiples, Chord, Stands, Pow, Cong, Reduce;
    MulStands(f, Base(), u1, P256());
    MulStands(g, q, u2, P256());
    AddStands(Mul(Base(), u1, P256()), Mul(q, u2, P256()), f(u1), g(u2), t, P256());
    AffineXStands(Sum(q, u1, u2), t, P256());
  }

  lemma PowLast(b: int, e: nat)
    requires e > 0
    ensures Pow(b, e) == b * Pow(b, e - 1)
  {}

  lemma Quotient(a: int, s: int, p: int, m: nat)
    requires m > 0 && Cong(s * p, 1, m)
    ensures Cong(a * (p % m) % m * s, a, m)
  {
    hide Cong;
    CongMod(a * (p % m), m);
    CongMod(p, m);
    CongSelf(a, m);
    CongSelf(s, m);
    CongMul(a, a, p % m, p, m);
    CongTrans(a * (p % m) % m, a * (p % m), a * p, m);
    CongMul(a * (p % m) % m, a * p, s, s, m);
    CongMul(a, a, s * p, 1, m);
    assert a * p * s == a * (s * p);
    CongTrans(a * (p % m) % m * s, a * (s * p), a * 1, m);
  }

  lemma CongSelf(a: int, m: nat)
    requires m > 0
    ensures Cong(a, a, m)
  {}
}
