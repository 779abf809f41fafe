/** Points of the curve y^2 = x^3 - 3x + b in Jacobian coordinates modulo m, with the point at
    infinity written (0, 0, 0), and the group operations of kernel/ecdsa.c as formulas. */
module EcCurve {
  import opened Words
  import opened EcAlgebra

  datatype Pt = Pt(x: nat, y: nat, z: nat)

  const INFINITY := Pt(0, 0, 0)

  /** Zero exactly on the curve: y^2 - (x^3 - 3 x z^4 + b z^6). */
  function Curve(x: int, y: int, z: int, b: int): int {
    y * y - Cubic(x, z * z, b)
  }

  ghost predicate OnCurve(p: Pt, b: int, m: nat)
    requires m > 0
  {
    Cong(Curve(p.x, p.y, p.z, b), 0, m)
  }

  function Reduce(x: int, m: nat): nat
    requires m > 0
  {
    x % m
  }

  // ---------------------------------------------------------------- doubling and addition

  function DblX(x: int, y: int, z: int): int {
    var a := 3 * ((x - z * z) * (x + z * z));
    a * a - 8 * (x * (y * y))
  }

  function DblY(x: int, y: int, z: int): int {
    var a := 3 * ((x - z * z) * (x + z * z));
    a * (4 * (x * (y * y)) - DblX(x, y, z)) - 8 * ((y * y) * (y * y))
  }

  function DblZ(y: int, z: int): int {
    2 * (y * z)
  }

  function Dbl(p: Pt, m: nat): Pt
    requires m > 0
  {
    if p.z == 0 || p.y == 0 then INFINITY
    else Pt(Reduce(DblX(p.x, p.y, p.z), m), Reduce(DblY(p.x, p.y, p.z), m), Reduce(DblZ(p.y, p.z), m))
  }

  /** The chord from (u, s) to (u + h, s + r), over the common denominator. */
  function ChordX(u: int, h: int, r: int): int {
    r * r - h * (h * h) - 2 * (u * (h * h))
  }

  function ChordY(u: int, h: int, s: int, r: int): int {
    r * (u * (h * h) - ChordX(u, h, r)) - s * (h * (h * h))
  }

  function U(x: int, z: int): int {
    x * (z * z)
  }

  function S(y: int, z: int): int {
    y * (z * (z * z))
  }

  function Add(p: Pt, q: Pt, m: nat): Pt
    requires m > 0
  {
    if p.z == 0 then q
    else if q.z == 0 then p
    else
      var u, s := U(p.x, q.z), S(p.y, q.z);
      var h, r := U(q.x, p.z) - u, S(q.y, p.z) - s;
      if Reduce(h, m) == 0 then (if Reduce(r, m) == 0 then Dbl(p, m) else INFINITY)
      else Pt(Reduce(4 * ChordX(u, h, r), m), Reduce(8 * ChordY(u, h, s, r), m), Reduce(2 * (p.z * q.z) * h, m))
  }

  /** Double-and-add from the top bit of k. */
  function Mul(p: Pt, k: nat, m: nat): Pt
    requires m > 0
  {
    if k == 0 then INFINITY
    else
      var d := Dbl(Mul(p, k / 2, m), m);
      if k % 2 == 1 then Add(d, p, m) else d
  }

  // ---------------------------------------------------------------- staying on the curve

  lemma CurveCong(x: int, y: int, z: int, x2: int, y2: int, z2: int, b: int, m: nat)
    requires m > 0 && Cong(x, x2, m) && Cong(y, y2, m) && Cong(z, z2, m)
    ensures Cong(Curve(x, y, z, b), Curve(x2, y2, z2, b), m)
  {
    CongMul(y, y2, y, y2, m);
    CongMul(z, z2, z, z2, m);
    CubicCong(x, z * z, x2, z2 * z2, b, m);
    hide Cubic;
    CongSub(y * y, y2 * y2, Cubic(x, z * z, b), Cubic(x2, z2 * z2, b), m);
  }

  lemma CubicCong(x: int, d: int, x2: int, d2: int, b: int, m: nat)
    requires m > 0 && Cong(x, x2, m) && Cong(d, d2, m)
    ensures Cong(Cubic(x, d, b), Cubic(x2, d2, b), m)
  {
    hide Cong;
    CongMul(x, x2, x, x2, m);
    CongMul(x, x2, x * x, x2 * x2, m);
    CongMul(d, d2, d, d2, m);
    CongMul(x, x2, d * d, d2 * d2, m);
    CongMul(d, d2, d * d, d2 * d2, m);
    CongScale(3, x * (d * d), x2 * (d2 * d2), m);
    CongScale(b, d * (d * d), d2 * (d2 * d2), m);
    CongSub(x * (x * x), x2 * (x2 * x2), 3 * (x * (d * d)), 3 * (x2 * (d2 * d2)), m);
    CongAdd(x * (x * x) - 3 * (x * (d * d)), x2 * (x2 * x2) - 3 * (x2 * (d2 * d2)),
            b * (d * (d * d)), b * (d2 * (d2 * d2)), m);
  }

  lemma CongZero(c: int, x: int, m: nat)
    requires m > 0 && Cong(x, 0, m)
    ensures Cong(c * x, 0, m)
  {
    CongScale(c, x, 0, m);
  }

  lemma ReducedOnCurve(x: int, y: int, z: int, b: int, m: nat)
    requires m > 0 && Cong(Curve(x, y, z, b), 0, m)
    ensures OnCurve(Pt(Reduce(x, m), Reduce(y, m), Reduce(z, m)), b, m)
  {
    hide Curve;
    CongMod(x, m);
    CongMod(y, m);
    CongMod(z, m);
    CurveCong(x % m, y % m, z % m, x, y, z, b, m);
  }

  lemma InfinityOnCurve(b: int, m: nat)
    requires m > 0
    ensures OnCurve(INFINITY, b, m)
  {}

  lemma DoubleZSquare(y: int, z: int)
    ensures (2 * (y * z)) * (2 * (y * z)) == 4 * ((y * y) * (z * z))
  {}

  /** Doubling stays on the curve, for every b and every point. */
  lemma DblOnCurve(p: Pt, b: int, m: nat)
    requires m > 0 && OnCurve(p, b, m)
    ensures OnCurve(Dbl(p, m), b, m)
  {
    if p.z == 0 || p.y == 0 {
      InfinityOnCurve(b, m);
    } else {
      DblCurve(p.x, p.y, p.z, b, m);
      hide OnCurve, Curve;
      ReducedOnCurve(DblX(p.x, p.y, p.z), DblY(p.x, p.y, p.z), DblZ(p.y, p.z), b, m);
    }
  }

  lemma DblCurve(x: int, y: int, z: int, b: int, m: nat)
    requires m > 0 && Cong(Curve(x, y, z, b), 0, m)
    ensures Cong(Curve(DblX(x, y, z), DblY(x, y, z), DblZ(y, z), b), 0, m)
  {
    var g, d := y * y, z * z;
    var x3, y3, z3 := DblX(x, y, z), DblY(x, y, z), DblZ(y, z);
    DoubleZSquare(y, z);
    DoubleIdentity(x, g, d, b, 3 * ((x - d) * (x + d)), x3, y3, z3 * z3);
    hide Cubic, DblX, DblY, Cong;
    CongZero(g * (g * g), g - Cubic(x, d, b), m);
    CongZero(64, (g * (g * g)) * (g - Cubic(x, d, b)), m);
  }

  /** (x1, y1) over z1 brought to the denominator z1 z2 satisfies the scaled equation. */
  lemma ScaledPoint(x: int, y: int, z: int, c: int, w: int, b: int, m: nat)
    requires m > 0 && Cong(Curve(x, y, z, b), 0, m) && w == (z * z) * (c * c)
    ensures Cong(S(y, c) * S(y, c) - Cubic(U(x, c), w, b), 0, m)
  {
    ScaleSix(x, y, z * z, b, c);
    hide Cubic, Cong;
    CongZero((c * (c * c)) * (c * (c * c)), y * y - Cubic(x, z * z, b), m);
  }

  lemma ChordCurve(u: int, h: int, w: int, b: int, s: int, r: int, m: nat)
    requires m > 0
    requires Cong(s * s - Cubic(u, w, b), 0, m)
    requires Cong((s + r) * (s + r) - Cubic(u + h, w, b), 0, m)
    ensures
      var x3, y3 := ChordX(u, h, r), ChordY(u, h, s, r);
      Cong(y3 * y3 - Cubic(x3, w * (h * h), b), 0, m)
  {
    var x3, y3 := ChordX(u, h, r), ChordY(u, h, s, r);
    var h3 := h * (h * h);
    ChordIdentity(u, h, w, b, s, r, h * h, h3, x3, y3);
    SecantIsDifference(u, h, w, b, s, r);
    hide Cubic, Cong, Secant, ChordX, ChordY;
    var e1 := s * s - Cubic(u, w, b);
    var k := 2 * (s * r) + r * r - h * Secant(u, h, w);
    CongSub((s + r) * (s + r) - Cubic(u + h, w, b), 0, e1, 0, m);
    CongZero(h3 * h3, e1, m);
    CongZero(u * (h * h) - x3, k, m);
    CongZero(h3, (u * (h * h) - x3) * k, m);
    CongSub((h3 * h3) * e1, 0, h3 * ((u * (h * h) - x3) * k), 0, m);
  }

  lemma AddZSquare(z1: int, z2: int, h: int, w: int)
    requires w == (z1 * z1) * (z2 * z2)
    ensures (2 * (z1 * z2) * h) * (2 * (z1 * z2) * h) == (w * (h * h)) * 4
  {
    var t := z1 * z2;
    assert t * t == w;
    assert (2 * t * h) * (2 * t * h) == 4 * ((t * h) * (t * h));
    ProductPowers(t, h);
  }

  lemma AddCurve(p: Pt, q: Pt, b: int, m: nat, u: int, s: int, h: int, r: int)
    requires m > 0 && OnCurve(p, b, m) && OnCurve(q, b, m)
    requires u == U(p.x, q.z) && s == S(p.y, q.z) && u + h == U(q.x, p.z) && s + r == S(q.y, p.z)
    ensures Cong(Curve(4 * ChordX(u, h, r), 8 * ChordY(u, h, s, r), 2 * (p.z * q.z) * h, b), 0, m)
  {
    var w := (p.z * p.z) * (q.z * q.z);
    var x3, y3 := ChordX(u, h, r), ChordY(u, h, s, r);
    assert w == (q.z * q.z) * (p.z * p.z);
    ScaledPoint(p.x, p.y, p.z, q.z, w, b, m);
    ScaledPoint(q.x, q.y, q.z, p.z, w, b, m);
    hide Cubic, Cong, ChordX, ChordY, U, S;
    ChordCurve(u, h, w, b, s, r, m);
    ScaleSix(x3, y3, w * (h * h), b, 2);
    AddZSquare(p.z, q.z, h, w);
    CongZero(64, y3 * y3 - Cubic(x3, w * (h * h), b), m);
  }

  /** Addition stays on the curve, including the infinity, equal and opposite branches. */
  lemma AddOnCurve(p: Pt, q: Pt, b: int, m: nat)
    requires m > 0 && OnCurve(p, b, m) && OnCurve(q, b, m)
    ensures OnCurve(Add(p, q, m), b, m)
  {
    var u, s := U(p.x, q.z), S(p.y, q.z);
    var h, r := U(q.x, p.z) - u, S(q.y, p.z) - s;
    AddCurve(p, q, b, m, u, s, h, r);
    DblOnCurve(p, b, m);
    InfinityOnCurve(b, m);
    hide OnCurve, Curve, ChordX, ChordY, U, S, Dbl, Cong;
    ReducedOnCurve(4 * ChordX(u, h, r), 8 * ChordY(u, h, s, r), 2 * (p.z * q.z) * h, b, m);
  }

  /** So does every multiple of a point. */
  lemma {:induction false} MulOnCurve(p: Pt, k: nat, b: int, m: nat)
    requires m > 0 && OnCurve(p, b, m)
    ensures OnCurve(Mul(p, k, m), b, m)
  {
    hide OnCurve, Dbl, Add;
    if k == 0 {
      InfinityOnCurve(b, m);
    } else {
      MulOnCurve(p, k / 2, b, m);
      var d := Dbl(Mul(p, k / 2, m), m);
      DblOnCurve(Mul(p, k / 2, m), b, m);
      AddOnCurve(d, p, b, m);
    }
  }

  /** What is added is never left unreduced: coordinates of results are residues. */
  predicate Small(p: Pt, bound: nat) {
    p.x < bound && p.y < bound && p.z < bound
  }

  lemma DblSmall(p: Pt, m: nat)
    requires m > 0
    ensures Small(Dbl(p, m), m)
  {
    hide DblX, DblY, DblZ;
  }

  lemma AddSmall(p: Pt, q: Pt, m: nat, bound: nat)
    requires 0 < m <= bound && Small(p, bound) && Small(q, bound)
    ensures Small(Add(p, q, m), bound)
  {
    DblSmall(p, m);
    hide ChordX, ChordY, U, S, Dbl;
  }

  lemma {:induction false} MulSmall(p: Pt, k: nat, m: nat, bound: nat)
    requires 0 < m <= bound && Small(p, bound)
    ensures Small(Mul(p, k, m), bound)
  {
    hide Dbl, Add;
    if k == 0 {
    } else {
      MulSmall(p, k / 2, m, bound);
      var d := Dbl(Mul(p, k / 2, m), m);
      DblSmall(Mul(p, k / 2, m), m);
      AddSmall(d, p, m, bound);
    }
  }

  /** If Fermat's identity holds for z, multiplying by the square of z^(m-2) divides by z^2:
      the affine abscissa times z^2 is the Jacobian one. */
  lemma AffineX(x: int, z: int, m: nat)
    requires m > 2 && Cong(Pow(z, m - 1), 1, m)
    ensures Cong(x * (Pow(z, m - 2) * Pow(z, m - 2)) * (z * z), x, m)
  {
    var i := Pow(z, m - 2);
    assert Pow(z, m - 1) == z * i;
    CongMul(z * i, 1, z * i, 1, m);
    CongScale(x, (z * i) * (z * i), 1, m);
    AffineRegroup(x, i, z);
  }

  lemma AffineRegroup(x: int, i: int, z: int)
    ensures x * ((z * i) * (z * i)) == x * (i * i) * (z * z)
  {
    ProductPowers(z, i);
    assert x * ((z * z) * (i * i)) == x * (i * i) * (z * z);
  }
}
