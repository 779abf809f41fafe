/** Point arithmetic of kernel/ecdsa.c over P-256: Jacobian coordinates in 64-limb numbers,
    every operation writing its result in place. */
module Ecdsa {
  import opened Words
  import opened BigNat
  import opened Bignum
  import opened EcCurve
  import Rsa

  const BN_LIMBS := 64

  const P256_P: seq<u8> := [0xFF, 0xFF, 0xFF, 0xFF, 0x00, 0x00, 0x00, 0x01,
                            0x00, 0x00, 0x00, 0x00, 0x00, 0x00, 0x00, 0x00,
                            0x00, 0x00, 0x00, 0x00, 0xFF, 0xFF, 0xFF, 0xFF,
                            0xFF, 0xFF, 0xFF, 0xFF, 0xFF, 0xFF, 0xFF, 0xFF]

  /** The field prime. */
  function P256(): (p: nat)
    ensures p > 2
  {
    assert P256_P[31] == 0xFF;
    BeVal(P256_P)
  }

  /** 2^256, the bound on a coordinate read from 32 bytes. */
  function Coord(): nat {
    Radix(8)
  }

  lemma PrimeFits()
    ensures P256() < Coord() && 2 * Coord() <= Radix(BN_LIMBS)
    ensures BeVal(P256_P) % Radix(BN_LIMBS) == P256()
  {
    hide BeVal, Radix;
    BeValBound(P256_P);
    Radix8Whole(8);
    RadixNext(55);
    RadixAdd(8, 56);
    Rsa.Fits(P256_P, BN_LIMBS);
    MulMono(2, Radix(56), Radix(8));
  }

  predicate Bn(a: array<u32>) {
    a.Length == BN_LIMBS
  }

  predicate IsPrime(m: array<u32>)
    reads m
  {
    Bn(m) && Val(m[..]) == P256()
  }

  method LoadPrime(m: array<u32>)
    requires Bn(m)
    modifies m
    ensures IsPrime(m)
  {
    PrimeFits();
    FromBe(m, P256_P);
  }

  // ---------------------------------------------------------------- field operations

  /** bn_mulmod, read as multiplication of the residues its operands stand for. */
  method FMul(r: array<u32>, a: array<u32>, b: array<u32>, m: array<u32>, ghost x: int, ghost y: int)
    requires Bn(r) && Bn(a) && Bn(b) && IsPrime(m)
    requires Cong(Val(a[..]), x, P256()) && Cong(Val(b[..]), y, P256())
    modifies r
    ensures Val(r[..]) == Reduce(x * y, P256())
  {
    hide Val, P256, Radix;
    CongMul(Val(a[..]), x, Val(b[..]), y, P256());
    MulMod(r, a, b, m);
  }

  /** f_mul_u32. */
  method FMulU32(r: array<u32>, a: array<u32>, k: u32, m: array<u32>, ghost x: int)
    requires Bn(r) && Bn(a) && IsPrime(m) && m != r
    requires Cong(Val(a[..]), x, P256())
    modifies r
    ensures Val(r[..]) == Reduce(k * x, P256())
  {
    hide Val, P256, Radix;
    var kk := new u32[BN_LIMBS];
    Zero(kk);
    ghost var z := kk[..];
    kk[0] := k;
    assert kk[..] == z[0 := k];
    ValUpdate(z, 0, k);
    RadixZero();
    FMul(r, a, kk, m, x, k);
    assert x * k == k * x;
  }

  lemma RadixZero()
    ensures Radix(0) == 1
  {}

  /** f_sub: add the complement of a reduced subtrahend. */
  method FSub(r: array<u32>, a: array<u32>, b: array<u32>, m: array<u32>, ghost x: int, ghost y: int)
    requires Bn(r) && Bn(a) && Bn(b) && IsPrime(m) && m != r && m != b
    requires Val(a[..]) < Coord() && Cong(Val(a[..]), x, P256())
    requires Val(b[..]) == Reduce(y, P256())
    modifies r
    ensures Val(r[..]) < Coord() && Cong(Val(r[..]), x - y, P256())
    ensures old(Val(a[..])) < P256() ==> Val(r[..]) == Reduce(x - y, P256())
  {
    hide Val, P256, Radix, Coord;
    var negB := new u32[BN_LIMBS];
    Copy(negB, m);
    ModRange(y, P256());
    var borrow := SubInPlace(negB, b);
    ghost var va, vb := Val(a[..]), Val(b[..]);
    PrimeFits();
    CongMod(y, P256());
    FSubValue(va, vb, x, y, P256(), Coord(), Radix(BN_LIMBS));
    AddMod(r, a, negB, m);
  }

  lemma FSubValue(a: nat, b: nat, x: int, y: int, m: nat, coord: nat, radix: nat)
    requires 0 < m < coord && 2 * coord <= radix && a < coord && b < m
    requires Cong(a, x, m) && Cong(b, y, m)
    ensures
      var v := AddModSpec(a, m - b, m, radix);
      && v < coord && Cong(v, x - y, m)
      && (a < m ==> v == Reduce(x - y, m))
  {
    AddModCong(a, m - b, m, radix);
    CongMultiple(a + (m - b), a - b, 1, m);
    CongSub(a, x, b, y, m);
    var v := AddModSpec(a, m - b, m, radix);
    if a + (m - b) >= m {
      DivModUnique(a - b, radix, 0, a - b);
    }
    if a < m {
      DivModUnique(v, m, 0, v);
    }
  }

  /** bn_addmod of coordinates. */
  method FAdd(r: array<u32>, a: array<u32>, b: array<u32>, m: array<u32>, ghost x: int, ghost y: int)
    requires Bn(r) && Bn(a) && Bn(b) && IsPrime(m) && m != r && b != r
    requires Val(a[..]) < Coord() && Cong(Val(a[..]), x, P256())
    requires Val(b[..]) < Coord() && Cong(Val(b[..]), y, P256())
    modifies r
    ensures Cong(Val(r[..]), x + y, P256())
  {
    hide Val, P256, Radix, Coord;
    PrimeFits();
    AddModCong(Val(a[..]), Val(b[..]), P256(), Radix(BN_LIMBS));
    CongAdd(Val(a[..]), x, Val(b[..]), y, P256());
    AddMod(r, a, b, m);
  }

  lemma Residue(v: int)
    ensures Cong(Reduce(v, P256()), v, P256()) && Reduce(v, P256()) < P256()
  {
    hide P256;
    CongMod(v, P256());
  }

  // ---------------------------------------------------------------- points

  class EcPt {
    const X: array<u32>
    const Y: array<u32>
    const Z: array<u32>

    constructor ()
      ensures fresh(X) && fresh(Y) && fresh(Z) && Ok()
    {
      X, Y, Z := new u32[BN_LIMBS], new u32[BN_LIMBS], new u32[BN_LIMBS];
    }

    ghost predicate Ok() {
      Bn(X) && Bn(Y) && Bn(Z) && X != Y && X != Z && Y != Z
    }

    ghost function Value(): Pt
      reads X, Y, Z
    {
      Pt(Val(X[..]), Val(Y[..]), Val(Z[..]))
    }

    /** pt_is_inf. */
    method IsInf() returns (inf: bool)
      ensures inf == (Value().z == 0)
    {
      hide Val;
      inf := IsZero(Z);
    }

    /** pt_set_inf. */
    method SetInf()
      requires Ok()
      modifies X, Y, Z
      ensures Value() == INFINITY
    {
      hide Val;
      Zero(X);
      Zero(Y);
      Zero(Z);
    }

    method Set(x: array<u32>, y: array<u32>, z: array<u32>)
      requires Ok() && Bn(x) && Bn(y) && Bn(z)
      requires X != y && X != z && Y != z
      modifies X, Y, Z
      ensures Value() == old(Pt(Val(x[..]), Val(y[..]), Val(z[..])))
    {
      hide Val;
      Copy(X, x);
      Copy(Y, y);
      Copy(Z, z);
    }
  }

  /** The two points share no array. */
  predicate Apart(r: EcPt, p: EcPt) {
    && r.X != p.X && r.X != p.Y && r.X != p.Z && r.Y != p.X && r.Y != p.Y && r.Y != p.Z
    && r.Z != p.X && r.Z != p.Y && r.Z != p.Z
  }

  // ---------------------------------------------------------------- doubling

  /** alpha = 3 (X - delta)(X + delta). */
  method DblSlope(alpha: array<u32>, px: array<u32>, delta: array<u32>, m: array<u32>, ghost x: int, ghost d: int)
    requires Bn(alpha) && Bn(px) && Bn(delta) && IsPrime(m) && alpha != m && delta != m
    requires Val(px[..]) < Coord() && Cong(Val(px[..]), x, P256()) && Val(delta[..]) == Reduce(d, P256())
    modifies alpha
    ensures Val(alpha[..]) == Reduce(3 * ((x - d) * (x + d)), P256())
  {
    hide Val, P256, Radix, Coord, Cong, Reduce;
    PrimeFits();
    Residue(d);
    Residue((x - d) * (x + d));
    var t1, t2 := new u32[BN_LIMBS], new u32[BN_LIMBS];
    FSub(t1, px, delta, m, x, d);
    FAdd(t2, px, delta, m, x, d);
    FMul(alpha, t1, t2, m, x - d, x + d);
    FMulU32(alpha, alpha, 3, m, (x - d) * (x + d));
  }

  /** X3 = alpha^2 - 8 beta. */
  method DblXCoord(x3: array<u32>, alpha: array<u32>, beta: array<u32>, m: array<u32>, ghost a: int, ghost b: int)
    requires Bn(x3) && Bn(alpha) && Bn(beta) && IsPrime(m) && x3 != m && x3 != beta
    requires Val(alpha[..]) == Reduce(a, P256()) && Val(beta[..]) == Reduce(b, P256())
    modifies x3
    ensures Val(x3[..]) == Reduce(a * a - 8 * b, P256())
  {
    hide Val, P256, Radix, Coord, Cong, Reduce;
    PrimeFits();
    Residue(a);
    Residue(b);
    Residue(a * a);
    FMul(x3, alpha, alpha, m, a, a);
    var eightBeta := new u32[BN_LIMBS];
    FMulU32(eightBeta, beta, 8, m, b);
    FSub(x3, x3, eightBeta, m, a * a, 8 * b);
  }

  /** Z3 = (Y + Z)^2 - gamma - delta. */
  method DblZCoord(z3: array<u32>, py: array<u32>, pz: array<u32>, gamma: array<u32>, delta: array<u32>,
                   m: array<u32>, ghost y: int, ghost z: int)
    requires Bn(z3) && Bn(py) && Bn(pz) && Bn(gamma) && Bn(delta) && IsPrime(m)
    requires z3 != m && z3 != gamma && z3 != delta && gamma != m && delta != m
    requires Val(py[..]) < Coord() && Cong(Val(py[..]), y, P256())
    requires Val(pz[..]) < Coord() && Cong(Val(pz[..]), z, P256())
    requires Val(gamma[..]) == Reduce(y * y, P256()) && Val(delta[..]) == Reduce(z * z, P256())
    modifies z3
    ensures Val(z3[..]) == Reduce(DblZ(y, z), P256())
  {
    hide Val, P256, Radix, Coord, Cong, Reduce;
    PrimeFits();
    Residue((y + z) * (y + z));
    Residue((y + z) * (y + z) - y * y);
    var t1 := new u32[BN_LIMBS];
    FAdd(t1, py, pz, m, y, z);
    FMul(z3, t1, t1, m, y + z, y + z);
    FSub(z3, z3, gamma, m, (y + z) * (y + z), y * y);
    FSub(z3, z3, delta, m, (y + z) * (y + z) - y * y, z * z);
    assert (y + z) * (y + z) - y * y - z * z == 2 * (y * z);
  }

  /** Y3 = alpha (4 beta - X3) - 8 gamma^2. */
  method DblYCoord(y3: array<u32>, alpha: array<u32>, beta: array<u32>, x3: array<u32>, gamma: array<u32>,
                   m: array<u32>, ghost a: int, ghost b: int, ghost x: int, ghost g: int)
    requires Bn(y3) && Bn(alpha) && Bn(beta) && Bn(x3) && Bn(gamma) && IsPrime(m)
    requires y3 != m && x3 != m && y3 != gamma
    requires Val(alpha[..]) == Reduce(a, P256()) && Val(beta[..]) == Reduce(b, P256())
    requires Val(x3[..]) == Reduce(x, P256()) && Val(gamma[..]) == Reduce(g, P256())
    modifies y3
    ensures Val(y3[..]) == Reduce(a * (4 * b - x) - 8 * (g * g), P256())
  {
    hide Val, P256, Radix, Coord, Cong, Reduce;
    PrimeFits();
    Residue(a);
    Residue(b);
    Residue(g);
    Residue(4 * b);
    Residue(g * g);
    Residue(a * (4 * b - x));
    var fourBeta, t1 := new u32[BN_LIMBS], new u32[BN_LIMBS];
    FMulU32(fourBeta, beta, 4, m, b);
    FSub(t1, fourBeta, x3, m, 4 * b, x);
    FMul(y3, alpha, t1, m, a, 4 * b - x);
    var gammaSq, eight := new u32[BN_LIMBS], new u32[BN_LIMBS];
    FMul(gammaSq, gamma, gamma, m, g, g);
    FMulU32(eight, gammaSq, 8, m, g * g);
    FSub(y3, y3, eight, m, a * (4 * b - x), 8 * (g * g));
  }

  /** delta = Z^2, gamma = Y^2, beta = X gamma, alpha = 3 (X - delta)(X + delta). */
  method DblParts(p: EcPt, delta: array<u32>, gamma: array<u32>, beta: array<u32>, alpha: array<u32>, m: array<u32>,
                  ghost x: nat, ghost y: nat, ghost z: nat)
    requires p.Ok() && p.Value() == Pt(x, y, z) && Small(p.Value(), Coord())
    requires Bn(delta) && Bn(gamma) && Bn(beta) && Bn(alpha) && IsPrime(m)
    requires delta != gamma && delta != beta && delta != alpha && gamma != beta && gamma != alpha && beta != alpha
    requires {p.X, p.Y, p.Z, m} !! {delta, gamma, beta, alpha}
    modifies delta, gamma, beta, alpha
    ensures Val(delta[..]) == Reduce(z * z, P256()) && Val(gamma[..]) == Reduce(y * y, P256())
    ensures Val(beta[..]) == Reduce(x * (y * y), P256())
    ensures Val(alpha[..]) == Reduce(3 * ((x - z * z) * (x + z * z)), P256())
  {
    hide Val, P256, Radix, Coord, Cong, Reduce;
    Residue(y * y);
    SelfCong(x);
    SelfCong(y);
    SelfCong(z);
    FMul(delta, p.Z, p.Z, m, z, z);
    FMul(gamma, p.Y, p.Y, m, y, y);
    FMul(beta, p.X, gamma, m, x, y * y);
    DblSlope(alpha, p.X, delta, m, x, z * z);
  }

  /** The three coordinates of the double, from its parts. */
  method DblCoords(r: EcPt, p: EcPt, delta: array<u32>, gamma: array<u32>, beta: array<u32>, alpha: array<u32>,
                   m: array<u32>, ghost x: nat, ghost y: nat, ghost z: nat)
    requires r.Ok() && p.Ok() && p.Value() == Pt(x, y, z) && Small(p.Value(), Coord())
    requires Bn(delta) && Bn(gamma) && Bn(beta) && Bn(alpha) && IsPrime(m)
    requires m != gamma && m != delta
    requires Val(delta[..]) == Reduce(z * z, P256()) && Val(gamma[..]) == Reduce(y * y, P256())
    requires Val(beta[..]) == Reduce(x * (y * y), P256())
    requires Val(alpha[..]) == Reduce(3 * ((x - z * z) * (x + z * z)), P256())
    modifies r.X, r.Y, r.Z
    ensures r.Value() == Pt(Reduce(DblX(x, y, z), P256()), Reduce(DblY(x, y, z), P256()), Reduce(DblZ(y, z), P256()))
  {
    DblFormulas(x, y, z);
    hide Val, P256, Radix, Coord, Cong, Reduce, DblX, DblY, DblZ;
    var x3, y3, z3 := new u32[BN_LIMBS], new u32[BN_LIMBS], new u32[BN_LIMBS];
    SelfCong(y);
    SelfCong(z);
    ghost var a := 3 * ((x - z * z) * (x + z * z));
    DblXCoord(x3, alpha, beta, m, a, x * (y * y));
    DblZCoord(z3, p.Y, p.Z, gamma, delta, m, y, z);
    DblYCoord(y3, alpha, beta, x3, gamma, m, a, x * (y * y), DblX(x, y, z), y * y);
    r.Set(x3, y3, z3);
  }

  /** The doubling of a point that is neither at infinity nor of order two. */
  method DblFinite(r: EcPt, p: EcPt, ghost x: nat, ghost y: nat, ghost z: nat)
    requires r.Ok() && p.Ok() && Apart(r, p) && p.Value() == Pt(x, y, z) && Small(p.Value(), Coord())
    modifies r.X, r.Y, r.Z
    ensures r.Value() == Pt(Reduce(DblX(x, y, z), P256()), Reduce(DblY(x, y, z), P256()), Reduce(DblZ(y, z), P256()))
  {
    hide Val, P256, Radix, Coord, Cong, Reduce, DblX, DblY, DblZ;
    var m := new u32[BN_LIMBS];
    LoadPrime(m);
    var delta, gamma, beta, alpha := new u32[BN_LIMBS], new u32[BN_LIMBS], new u32[BN_LIMBS], new u32[BN_LIMBS];
    DblParts(p, delta, gamma, beta, alpha, m, x, y, z);
    DblCoords(r, p, delta, gamma, beta, alpha, m, x, y, z);
  }

  /** pt_dbl. */
  method PtDbl(r: EcPt, p: EcPt)
    requires r.Ok() && p.Ok() && Apart(r, p) && Small(p.Value(), Coord())
    modifies r.X, r.Y, r.Z
    ensures r.Value() == Dbl(old(p.Value()), P256())
  {
    hide Val, P256, Coord, Reduce, DblX, DblY, DblZ;
    var inf := p.IsInf();
    var flat := IsZero(p.Y);
    if inf || flat {
      r.SetInf();
      return;
    }
    DblFinite(r, p, Val(p.X[..]), Val(p.Y[..]), Val(p.Z[..]));
  }

  lemma SelfCong(x: int)
    ensures Cong(x, x, P256())
  {}

  lemma DblFormulas(x: int, y: int, z: int)
    ensures
      var a := 3 * ((x - z * z) * (x + z * z));
      && DblX(x, y, z) == a * a - 8 * (x * (y * y))
      && DblY(x, y, z) == a * (4 * (x * (y * y)) - DblX(x, y, z)) - 8 * ((y * y) * (y * y))
  {}

  // ---------------------------------------------------------------- addition

  /** One point's abscissa and ordinate over the other's denominator: U = X W^2, S = Y W^3. */
  method Rescale(u: array<u32>, s: array<u32>, px: array<u32>, py: array<u32>, w: array<u32>, ww: array<u32>,
                 m: array<u32>, ghost x: nat, ghost y: nat, ghost z: nat)
    requires Bn(u) && Bn(s) && Bn(px) && Bn(py) && Bn(w) && Bn(ww) && IsPrime(m)
    requires u != s && {px, py, w, ww, m} !! {u, s}
    requires Val(px[..]) == x && Val(py[..]) == y && Val(w[..]) == z && Val(ww[..]) == Reduce(z * z, P256())
    modifies u, s
    ensures Val(u[..]) == Reduce(U(x, z), P256()) && Val(s[..]) == Reduce(S(y, z), P256())
  {
    RescaleFormulas(x, y, z);
    hide Val, P256, Radix, Coord, Cong, Reduce, U, S;
    SelfCong(x);
    SelfCong(y);
    SelfCong(z);
    Residue(z * z);
    Residue(y * z);
    FMul(u, px, ww, m, x, z * z);
    FMul(s, py, w, m, y, z);
    FMul(s, s, ww, m, y * z, z * z);
  }

  lemma RescaleFormulas(x: int, y: int, z: int)
    ensures U(x, z) == x * (z * z) && S(y, z) == (y * z) * (z * z)
  {}

  lemma ChordFormulas(u: int, h: int, s: int, r: int)
    ensures (2 * r) * (2 * r) - h * (4 * (h * h)) - 2 * (u * (4 * (h * h))) == 4 * ChordX(u, h, r)
    ensures (2 * r) * (u * (4 * (h * h)) - 4 * ChordX(u, h, r)) - 2 * (s * (h * (4 * (h * h)))) == 8 * ChordY(u, h, s, r)
  {
    var h2 := h * h;
    assert h * (4 * h2) == 4 * (h * h2) && u * (4 * h2) == 4 * (u * h2);
    var x := ChordX(u, h, r);
    assert (2 * r) * (4 * (u * h2) - 4 * x) == 8 * (r * (u * h2 - x));
    assert s * (4 * (h * h2)) == 4 * (s * (h * h2));
  }

  /** I = 4 H^2, J = H I, V = U1 I, t = 2 rr. */
  method ChordParts(j: array<u32>, v: array<u32>, t: array<u32>, hh: array<u32>, u1: array<u32>, rr: array<u32>,
                    m: array<u32>, ghost h: int, ghost u: int, ghost r: int)
    requires Bn(j) && Bn(v) && Bn(t) && Bn(hh) && Bn(u1) && Bn(rr) && IsPrime(m)
    requires j != v && j != t && v != t && {hh, u1, rr, m} !! {j, v, t}
    requires Val(hh[..]) == Reduce(h, P256()) && Val(u1[..]) == Reduce(u, P256()) && Val(rr[..]) == Reduce(r, P256())
    modifies j, v, t
    ensures Val(j[..]) == Reduce(h * (4 * (h * h)), P256())
    ensures Val(v[..]) == Reduce(u * (4 * (h * h)), P256())
    ensures Val(t[..]) == Reduce(2 * r, P256())
  {
    hide Val, P256, Radix, Coord, Cong, Reduce;
    Residue(h);
    Residue(u);
    Residue(r);
    Residue(h * h);
    Residue(4 * (h * h));
    var i := new u32[BN_LIMBS];
    FMul(i, hh, hh, m, h, h);
    FMulU32(i, i, 4, m, h * h);
    FMul(j, hh, i, m, h, 4 * (h * h));
    FMulU32(t, rr, 2, m, r);
    FMul(v, u1, i, m, u, 4 * (h * h));
  }

  /** X3 = t^2 - J - 2V. */
  method ChordXCoord(x3: array<u32>, t: array<u32>, j: array<u32>, v: array<u32>, m: array<u32>,
                     ghost a: int, ghost b: int, ghost c: int)
    requires Bn(x3) && Bn(t) && Bn(j) && Bn(v) && IsPrime(m) && {t, j, v, m} !! {x3} && m != j
    requires Val(t[..]) == Reduce(a, P256()) && Val(j[..]) == Reduce(b, P256()) && Val(v[..]) == Reduce(c, P256())
    modifies x3
    ensures Val(x3[..]) == Reduce(a * a - b - 2 * c, P256())
  {
    hide Val, P256, Radix, Coord, Cong, Reduce;
    PrimeFits();
    Residue(a);
    Residue(c);
    Residue(a * a);
    Residue(a * a - b);
    FMul(x3, t, t, m, a, a);
    FSub(x3, x3, j, m, a * a, b);
    var twoV := new u32[BN_LIMBS];
    FMulU32(twoV, v, 2, m, c);
    FSub(x3, x3, twoV, m, a * a - b, 2 * c);
  }

  /** Y3 = t (V - X3) - 2 S1 J. */
  method ChordYCoord(y3: array<u32>, t: array<u32>, v: array<u32>, x3: array<u32>, s1: array<u32>, j: array<u32>,
                     m: array<u32>, ghost a: int, ghost c: int, ghost x: int, ghost s: int, ghost b: int)
    requires Bn(y3) && Bn(t) && Bn(v) && Bn(x3) && Bn(s1) && Bn(j) && IsPrime(m)
    requires {t, v, x3, s1, j, m} !! {y3} && m != x3
    requires Val(t[..]) == Reduce(a, P256()) && Val(v[..]) == Reduce(c, P256()) && Val(x3[..]) == Reduce(x, P256())
    requires Val(s1[..]) == Reduce(s, P256()) && Val(j[..]) == Reduce(b, P256())
    modifies y3
    ensures Val(y3[..]) == Reduce(a * (c - x) - 2 * (s * b), P256())
  {
    hide Val, P256, Radix, Coord, Cong, Reduce;
    PrimeFits();
    Residue(a);
    Residue(b);
    Residue(c);
    Residue(s);
    Residue(s * b);
    Residue(a * (c - x));
    FSub(y3, v, x3, m, c, x);
    FMul(y3, t, y3, m, a, c - x);
    var s1j, two := new u32[BN_LIMBS], new u32[BN_LIMBS];
    FMul(s1j, s1, j, m, s, b);
    FMulU32(two, s1j, 2, m, s * b);
    FSub(y3, y3, two, m, a * (c - x), 2 * (s * b));
  }

  /** Z3 = ((Z1 + Z2)^2 - Z1Z1 - Z2Z2) H. */
  method ChordZCoord(z3: array<u32>, pz: array<u32>, qz: array<u32>, zz1: array<u32>, zz2: array<u32>, hh: array<u32>,
                     m: array<u32>, ghost z1: nat, ghost z2: nat, ghost h: int)
    requires Bn(z3) && Bn(pz) && Bn(qz) && Bn(zz1) && Bn(zz2) && Bn(hh) && IsPrime(m)
    requires {pz, qz, zz1, zz2, hh, m} !! {z3} && m != zz1 && m != zz2
    requires Val(pz[..]) == z1 < Coord() && Val(qz[..]) == z2 < Coord()
    requires Val(zz1[..]) == Reduce(z1 * z1, P256()) && Val(zz2[..]) == Reduce(z2 * z2, P256())
    requires Val(hh[..]) == Reduce(h, P256())
    modifies z3
    ensures Val(z3[..]) == Reduce(2 * (z1 * z2) * h, P256())
  {
    hide Val, P256, Radix, Coord, Cong, Reduce;
    PrimeFits();
    var q := (z1 + z2) * (z1 + z2);
    SelfCong(z1);
    SelfCong(z2);
    Residue(q);
    Residue(q - z1 * z1);
    Residue(q - z1 * z1 - z2 * z2);
    Residue(h);
    FAdd(z3, pz, qz, m, z1, z2);
    FMul(z3, z3, z3, m, z1 + z2, z1 + z2);
    FSub(z3, z3, zz1, m, q, z1 * z1);
    FSub(z3, z3, zz2, m, q - z1 * z1, z2 * z2);
    assert q - z1 * z1 - z2 * z2 == 2 * (z1 * z2);
    FMul(z3, z3, hh, m, 2 * (z1 * z2), h);
  }

  /** The chord through two points with different abscissas. */
  method AddChord(r: EcPt, p: EcPt, q: EcPt, zz1: array<u32>, zz2: array<u32>, u1: array<u32>, s1: array<u32>,
                  hh: array<u32>, rr: array<u32>, m: array<u32>,
                  ghost z1: nat, ghost z2: nat, ghost u: int, ghost s: int, ghost h: int, ghost d: int)
    requires r.Ok() && p.Ok() && q.Ok() && IsPrime(m) && m != zz1 && m != zz2
    requires Bn(zz1) && Bn(zz2) && Bn(u1) && Bn(s1) && Bn(hh) && Bn(rr)
    requires Val(p.Z[..]) == z1 < Coord() && Val(q.Z[..]) == z2 < Coord()
    requires Val(zz1[..]) == Reduce(z1 * z1, P256()) && Val(zz2[..]) == Reduce(z2 * z2, P256())
    requires Val(u1[..]) == Reduce(u, P256()) && Val(s1[..]) == Reduce(s, P256())
    requires Val(hh[..]) == Reduce(h, P256()) && Val(rr[..]) == Reduce(d, P256())
    modifies r.X, r.Y, r.Z
    ensures r.Value() == Pt(Reduce(4 * ChordX(u, h, d), P256()), Reduce(8 * ChordY(u, h, s, d), P256()),
                            Reduce(2 * (z1 * z2) * h, P256()))
  {
    ChordFormulas(u, h, s, d);
    hide Val, P256, Radix, Coord, Cong, Reduce, ChordX, ChordY;
    var j, v, t := new u32[BN_LIMBS], new u32[BN_LIMBS], new u32[BN_LIMBS];
    ChordParts(j, v, t, hh, u1, rr, m, h, u, d);
    var x3, y3, z3 := new u32[BN_LIMBS], new u32[BN_LIMBS], new u32[BN_LIMBS];
    ChordXCoord(x3, t, j, v, m, 2 * d, h * (4 * (h * h)), u * (4 * (h * h)));
    ChordYCoord(y3, t, v, x3, s1, j, m, 2 * d, u * (4 * (h * h)), 4 * ChordX(u, h, d), s, h * (4 * (h * h)));
    ChordZCoord(z3, p.Z, q.Z, zz1, zz2, hh, m, z1, z2, h);
    r.Set(x3, y3, z3);
  }

  /** H = U2 - U1 and rr = S2 - S1, with Z1Z1, Z2Z2, U1 and S1 beside them. */
  method AddParts(p: EcPt, q: EcPt, zz1: array<u32>, zz2: array<u32>, u1: array<u32>, s1: array<u32>,
                  hh: array<u32>, rr: array<u32>, m: array<u32>, ghost a: Pt, ghost b: Pt)
    requires p.Ok() && q.Ok() && IsPrime(m) && p.Value() == a && q.Value() == b
    requires Bn(zz1) && Bn(zz2) && Bn(u1) && Bn(s1) && Bn(hh) && Bn(rr)
    requires zz1 != zz2 && zz1 != u1 && zz1 != s1 && zz1 != hh && zz1 != rr
    requires zz2 != u1 && zz2 != s1 && zz2 != hh && zz2 != rr
    requires u1 != s1 && u1 != hh && u1 != rr && s1 != hh && s1 != rr && hh != rr
    requires {p.X, p.Y, p.Z, q.X, q.Y, q.Z, m} !! {zz1, zz2, u1, s1, hh, rr}
    modifies zz1, zz2, u1, s1, hh, rr
    ensures Val(zz1[..]) == Reduce(a.z * a.z, P256()) && Val(zz2[..]) == Reduce(b.z * b.z, P256())
    ensures Val(u1[..]) == Reduce(U(a.x, b.z), P256()) && Val(s1[..]) == Reduce(S(a.y, b.z), P256())
    ensures Val(hh[..]) == Reduce(U(b.x, a.z) - U(a.x, b.z), P256())
    ensures Val(rr[..]) == Reduce(S(b.y, a.z) - S(a.y, b.z), P256())
  {
    hide Val, P256, Radix, Coord, Cong, Reduce, U, S;
    PrimeFits();
    SelfCong(a.z);
    SelfCong(b.z);
    Residue(U(b.x, a.z));
    Residue(S(b.y, a.z));
    FMul(zz1, p.Z, p.Z, m, a.z, a.z);
    FMul(zz2, q.Z, q.Z, m, b.z, b.z);
    Rescale(u1, s1, p.X, p.Y, q.Z, zz2, m, a.x, a.y, b.z);
    var u2, s2 := new u32[BN_LIMBS], new u32[BN_LIMBS];
    Rescale(u2, s2, q.X, q.Y, p.Z, zz1, m, b.x, b.y, a.z);
    FSub(hh, u2, u1, m, U(b.x, a.z), U(a.x, b.z));
    FSub(rr, s2, s1, m, S(b.y, a.z), S(a.y, b.z));
  }

  /** pt_add. */
  method PtAdd(r: EcPt, p: EcPt, q: EcPt)
    requires r.Ok() && p.Ok() && q.Ok() && Apart(r, p) && Apart(r, q)
    requires Small(p.Value(), Coord()) && Small(q.Value(), Coord())
    modifies r.X, r.Y, r.Z
    ensures r.Value() == Add(old(p.Value()), old(q.Value()), P256())
  {
    hide Val, P256, Radix, Coord, Cong, Reduce, U, S, ChordX, ChordY, Dbl;
    var inf := p.IsInf();
    if inf {
      r.Set(q.X, q.Y, q.Z);
      return;
    }
    inf := q.IsInf();
    if inf {
      r.Set(p.X, p.Y, p.Z);
      return;
    }
    AddFinite(r, p, q, p.Value(), q.Value());
  }

  lemma AddCases(p: Pt, q: Pt, m: nat)
    requires m > 0 && p.z != 0 && q.z != 0
    ensures
      var u, s := U(p.x, q.z), S(p.y, q.z);
      var h, r := U(q.x, p.z) - u, S(q.y, p.z) - s;
      && (Reduce(h, m) == 0 && Reduce(r, m) == 0 ==> Add(p, q, m) == Dbl(p, m))
      && (Reduce(h, m) == 0 && Reduce(r, m) != 0 ==> Add(p, q, m) == INFINITY)
      && (Reduce(h, m) != 0 ==>
            Add(p, q, m) == Pt(Reduce(4 * ChordX(u, h, r), m), Reduce(8 * ChordY(u, h, s, r), m),
                               Reduce(2 * (p.z * q.z) * h, m)))
  {
    hide U, S, ChordX, ChordY, Dbl, Reduce;
  }

  /** The three outcomes of adding two finite points. */
  method AddSelect(r: EcPt, p: EcPt, q: EcPt, zz1: array<u32>, zz2: array<u32>, u1: array<u32>, s1: array<u32>,
                   hh: array<u32>, rr: array<u32>, m: array<u32>, ghost a: Pt, ghost b: Pt)
    requires r.Ok() && p.Ok() && q.Ok() && Apart(r, p) && IsPrime(m) && m != zz1 && m != zz2
    requires p.Value() == a && q.Value() == b && a.z != 0 && b.z != 0
    requires Small(a, Coord()) && Small(b, Coord())
    requires Bn(zz1) && Bn(zz2) && Bn(u1) && Bn(s1) && Bn(hh) && Bn(rr)
    requires Val(zz1[..]) == Reduce(a.z * a.z, P256()) && Val(zz2[..]) == Reduce(b.z * b.z, P256())
    requires Val(u1[..]) == Reduce(U(a.x, b.z), P256()) && Val(s1[..]) == Reduce(S(a.y, b.z), P256())
    requires Val(hh[..]) == Reduce(U(b.x, a.z) - U(a.x, b.z), P256())
    requires Val(rr[..]) == Reduce(S(b.y, a.z) - S(a.y, b.z), P256())
    modifies r.X, r.Y, r.Z
    ensures r.Value() == Add(a, b, P256())
  {
    AddCases(a, b, P256());
    hide Val, P256, Radix, Coord, Cong, Reduce, U, S, ChordX, ChordY, Dbl, Add;
    var sameX := IsZero(hh);
    if sameX {
      var sameY := IsZero(rr);
      if sameY {
        PtDbl(r, p);
      } else {
        r.SetInf();
      }
    } else {
      AddChord(r, p, q, zz1, zz2, u1, s1, hh, rr, m, a.z, b.z, U(a.x, b.z), S(a.y, b.z),
               U(b.x, a.z) - U(a.x, b.z), S(b.y, a.z) - S(a.y, b.z));
    }
  }

  method AddFinite(r: EcPt, p: EcPt, q: EcPt, ghost a: Pt, ghost b: Pt)
    requires r.Ok() && p.Ok() && q.Ok() && Apart(r, p) && Apart(r, q)
    requires p.Value() == a && q.Value() == b && a.z != 0 && b.z != 0
    requires Small(a, Coord()) && Small(b, Coord())
    modifies r.X, r.Y, r.Z
    ensures r.Value() == Add(a, b, P256())
  {
    hide Val, P256, Radix, Coord, Cong, Reduce, U, S, Add, Small;
    var m := new u32[BN_LIMBS];
    LoadPrime(m);
    var zz1, zz2, u1, s1 := new u32[BN_LIMBS], new u32[BN_LIMBS], new u32[BN_LIMBS], new u32[BN_LIMBS];
    var hh, rr := new u32[BN_LIMBS], new u32[BN_LIMBS];
    AddParts(p, q, zz1, zz2, u1, s1, hh, rr, m, a, b);
    AddSelect(r, p, q, zz1, zz2, u1, s1, hh, rr, m, a, b);
  }

  // ---------------------------------------------------------------- multiples

  lemma MulNext(p: Pt, k: nat, i: nat, m: nat)
    requires m > 0
    ensures
      var d := Dbl(Mul(p, Shr(k, i + 1), m), m);
      Mul(p, Shr(k, i), m) == if Shr(k, i) % 2 == 1 then Add(d, p, m) else d
  {
    HalfShift(k, i);
    hide Add, Pow2, Shr;
    if Shr(k, i) == 0 {
      assert Mul(p, 0, m) == INFINITY;
    }
  }

  lemma HalfShift(k: nat, i: nat)
    ensures Shr(k, i) / 2 == Shr(k, i + 1)
  {
    DivDiv(k, Pow2(i), 2);
  }

  /** pt_mul: left-to-right double-and-add. */
  method PtMul(r: EcPt, p: EcPt, k: array<u32>)
    requires r.Ok() && p.Ok() && Apart(r, p) && Small(p.Value(), Coord())
    requires Bn(k) && k != r.X && k != r.Y && k != r.Z
    modifies r.X, r.Y, r.Z
    ensures r.Value() == Mul(old(p.Value()), Val(k[..]), P256())
  {
    hide Val, P256, Radix, Coord, Dbl, Add, Small, Pow2, Bit, Shr;
    ghost var pv, s := p.Value(), k[..];
    ghost var kv := Val(s);
    r.SetInf();
    var top := TopBit(k);
    ShrIs(kv, top + 1);
    assert Mul(pv, 0, P256()) == INFINITY;
    if top < 0 {
      TopBitValue(kv, top);
      return;
    }
    hide Mul;
    var i := top;
    var t := new EcPt();
    while i >= 0
      invariant -1 <= i <= top
      invariant p.Value() == pv && k[..] == s
      invariant r.Value() == Mul(pv, Shr(kv, i + 1), P256())
    {
      BitIs(s, i);
      ShrIs(kv, i);
      MulNext(pv, kv, i, P256());
      MulStaysSmall(pv, Shr(kv, i + 1));
      StepSmall(pv, Shr(kv, i + 1));
      PtDbl(t, r);
      r.Set(t.X, t.Y, t.Z);
      if Bit(k[..], i) != 0 {
        PtAdd(t, r, p);
        r.Set(t.X, t.Y, t.Z);
      }
      i := i - 1;
    }
    ShrIs(kv, 0);
    Pow2Values();
  }

  lemma ShrIs(x: nat, k: nat)
    ensures Shr(x, k) == x / Pow2(k)
  {}

  lemma MulStaysSmall(p: Pt, k: nat)
    requires Small(p, Coord())
    ensures Small(Mul(p, k, P256()), Coord())
  {
    hide Small, Coord, P256, Mul;
    PrimeFits();
    MulSmall(p, k, P256(), Coord());
  }

  lemma StepSmall(p: Pt, k: nat)
    requires Small(p, Coord())
    ensures Small(Dbl(Mul(p, k, P256()), P256()), Coord())
  {
    hide Coord, P256, Mul, Dbl;
    PrimeFits();
    DblSmall(Mul(p, k, P256()), P256());
  }

  // ---------------------------------------------------------------- inversion

  lemma DecLimb(r: seq<u32>, r0: seq<u32>, i: nat, c0: nat, c1: nat)
    requires i < |r| == |r0|
    requires Val(r[..i]) + 2 == Val(r0[..i]) + c0 * Radix(i)
    requires r[i] + c0 == r0[i] + c1 * 0x1_0000_0000
    ensures Val(r[..i + 1]) + 2 == Val(r0[..i + 1]) + c1 * Radix(i + 1)
  {
    hide Val, Radix;
    RadixNext(i);
    ValSnoc(r, i);
    ValSnoc(r0, i);
    CarryStep(Val(r0[..i]), Val(r[..i]), 2, Radix(i), c0, c1, r0[i], r[i], 0);
  }

  /** Once the borrow is gone the rest of the number is untouched. */
  lemma DecDone(r: seq<u32>, r0: seq<u32>, i: nat, c: nat)
    requires i <= |r| == |r0| && (c == 0 || i == |r|) && Val(r0) >= 2
    requires Val(r[..i]) + 2 == Val(r0[..i]) + c * Radix(i)
    requires forall k :: i <= k < |r| ==> r[k] == r0[k]
    ensures Val(r) == Val(r0) - 2
  {
    hide Val, Radix;
    if i == |r| {
      ValWhole(r, i);
      ValWhole(r0, i);
      ValBound(r);
      NoBorrow(Val(r), Val(r0), c, Radix(i));
      Paid(Val(r), Val(r0), c, Radix(i));
    } else {
      Paid(Val(r[..i]), Val(r0[..i]), c, Radix(i));
      DecTail(r, r0, i);
    }
  }

  lemma DecTail(r: seq<u32>, r0: seq<u32>, i: nat)
    requires i <= |r| == |r0|
    requires Val(r[..i]) + 2 == Val(r0[..i])
    requires forall k :: i <= k < |r| ==> r[k] == r0[k]
    ensures Val(r) == Val(r0) - 2
  {
    hide Val, Radix;
    assert r[i..] == r0[i..];
    ValSplit(r, i);
    ValSplit(r0, i);
  }

  lemma Paid(v: nat, v0: nat, c: nat, radix: nat)
    requires v + 2 == v0 + c * radix && c == 0
    ensures v + 2 == v0
  {}

  lemma NoBorrow(v: nat, v0: nat, c: nat, radix: nat)
    requires v + 2 == v0 + c * radix && v < radix && v0 >= 2
    ensures c == 0
  {
    if c > 0 {
      MulMono(1, c, radix);
    }
  }

  /** The exponent of f_inv: m - 2, by a borrow that stops when it is paid. */
  method MinusTwo(exp: array<u32>, m: array<u32>)
    requires exp.Length == m.Length && exp != m && Val(m[..]) >= 2
    modifies exp
    ensures Val(exp[..]) == Val(m[..]) - 2
  {
    hide Val, Radix;
    Copy(exp, m);
    ghost var s := m[..];
    var borrow := 2;
    var i := 0;
    DecStart(s);
    while i < exp.Length && borrow != 0
      invariant 0 <= i <= exp.Length && 0 <= borrow <= 2
      invariant m[..] == s
      invariant forall k :: i <= k < exp.Length ==> exp[k] == s[k]
      invariant Val(exp[..][..i]) + 2 == Val(s[..i]) + borrow * Radix(i)
    {
      var d := exp[i] - borrow;
      ghost var prev, c0 := exp[..], borrow;
      exp[i] := d % 0x1_0000_0000;
      borrow := if d < 0 then 1 else 0;
      assert exp[..][..i] == prev[..i];
      DecLimb(exp[..], s, i, c0, borrow);
      i := i + 1;
    }
    DecDone(exp[..], s, i, borrow);
  }

  lemma DecStart(s: seq<u32>)
    ensures Val(s[..0]) == 0 && Radix(0) == 1
  {
    assert s[..0] == [];
  }

  /** f_inv: the power m - 2. */
  method FInv(r: array<u32>, a: array<u32>, m: array<u32>)
    requires Bn(r) && Bn(a) && Bn(m) && Val(m[..]) > 2
    modifies r
    ensures Val(r[..]) == old(Pow(Val(a[..]), Val(m[..]) - 2) % Val(m[..]))
  {
    hide Val, Pow;
    var exp := new u32[BN_LIMBS];
    MinusTwo(exp, m);
    ModExp(r, a, exp, m);
  }

  /** pt_to_affine_x. */
  method ToAffineX(x: array<u32>, p: EcPt, m: array<u32>) returns (ok: bool)
    requires p.Ok() && Bn(x) && IsPrime(m)
    requires x != p.X && x != p.Y && x != p.Z && x != m
    modifies x
    ensures ok == (p.Value().z != 0)
    ensures ok ==>
      var i := Pow(p.Value().z, P256() - 2);
      Val(x[..]) == Reduce(p.Value().x * (i * i), P256())
  {
    hide Val, P256, Radix, Pow, Reduce, Cong;
    var inf := p.IsInf();
    if inf { return false; }
    ghost var pv := p.Value();
    ghost var i := Pow(pv.z, P256() - 2);
    var zinv := new u32[BN_LIMBS];
    FInv(zinv, p.Z, m);
    InvResidue(i);
    Residue(i * i);
    SelfCong(pv.x);
    FMul(zinv, zinv, zinv, m, i, i);
    FMul(x, p.X, zinv, m, pv.x, i * i);
    return true;
  }

  lemma InvResidue(i: int)
    ensures Cong(i % P256(), i, P256())
  {
    hide P256;
    CongMod(i, P256());
  }

  /** The affine abscissa computed for a multiple of a curve point, when Fermat's identity holds
      for its denominator, is the abscissa of a point of the curve: the multiple itself. */
  lemma AffineOfMultiple(p: Pt, k: nat, b: int)
    requires OnCurve(p, b, P256())
    requires Cong(Pow(Mul(p, k, P256()).z, P256() - 1), 1, P256())
    ensures OnCurve(Mul(p, k, P256()), b, P256())
    ensures
      var q := Mul(p, k, P256());
      var i := Pow(q.z, P256() - 2);
      Cong(Reduce(q.x * (i * i), P256()) * (q.z * q.z), q.x, P256())
  {
    hide P256, Pow, OnCurve, Mul;
    MulOnCurve(p, k, b, P256());
    var q := Mul(p, k, P256());
    var i := Pow(q.z, P256() - 2);
    AffineX(q.x, q.z, P256());
    CongMod(q.x * (i * i), P256());
    CongMul(Reduce(q.x * (i * i), P256()), q.x * (i * i), q.z * q.z, q.z * q.z, P256());
  }
}
