/** What the Jacobian formulas compute on the affine curve: doubling is the tangent, addition the
    chord, and double-and-add the multiple, wherever the points met are not exceptional. */
module EcGroup {
  import opened Words
  import opened EcCurve

  datatype Affine = Affine(x: int, y: int)

  /** i divides by d. */
  ghost predicate InverseOf(d: int, i: int, m: nat)
    requires m > 0
  {
    Cong(d * i, 1, m)
  }

  ghost predicate Invertible(d: int, m: nat)
    requires m > 0
  {
    exists i :: InverseOf(d, i, m)
  }

  /** r is the third point of the tangent at p, reflected. */
  ghost predicate Tangent(p: Affine, r: Affine, m: nat)
    requires m > 0
  {
    Invertible(2 * p.y, m) && exists s :: TangentBy(p, r, s, m)
  }

  ghost predicate TangentBy(p: Affine, r: Affine, s: int, m: nat)
    requires m > 0
  {
    && Cong((2 * p.y) * s, 3 * ((p.x - 1) * (p.x + 1)), m)
    && Cong(r.x, s * s - 2 * p.x, m) && Cong(r.y, s * (p.x - r.x) - p.y, m)
  }

  /** r is the third point of the chord through p and q, reflected. */
  ghost predicate Chord(p: Affine, q: Affine, r: Affine, m: nat)
    requires m > 0
  {
    Invertible(2 * (q.x - p.x), m) && exists s :: ChordBy(p, q, r, s, m)
  }

  ghost predicate ChordBy(p: Affine, q: Affine, r: Affine, s: int, m: nat)
    requires m > 0
  {
    && Cong((q.x - p.x) * s, q.y - p.y, m)
    && Cong(r.x, s * s - p.x - q.x, m) && Cong(r.y, s * (p.x - r.x) - p.y, m)
  }

  /** The Jacobian point v is the affine point a. */
  ghost predicate Stands(v: Pt, a: Affine, m: nat)
    requires m > 0
  {
    Cong(v.x, a.x * (v.z * v.z), m) && Cong(v.y, a.y * (v.z * (v.z * v.z)), m) && Invertible(v.z, m)
  }

  // ---------------------------------------------------------------- congruences

  lemma CongFlip(a: int, b: int, m: nat)
    requires m > 0 && Cong(a, b, m)
    ensures Cong(b, a, m)
  {}

  lemma CongChain(a: int, b: int, c: int, m: nat)
    requires m > 0 && Cong(a, b, m) && Cong(b, c, m)
    ensures Cong(a, c, m)
  {}

  lemma CongCube(a: int, b: int, m: nat)
    requires m > 0 && Cong(a, b, m)
    ensures Cong(a * a, b * b, m) && Cong(a * (a * a), b * (b * b), m)
  {
    CongMul(a, b, a, b, m);
    CongMul(a, b, a * a, b * b, m);
  }

  /** A product with an invertible factor is zero only if the other factor is. */
  lemma NotZero(d: int, m: nat)
    requires m > 1 && Invertible(d, m)
    ensures !Cong(d, 0, m)
  {
    var i :| InverseOf(d, i, m);
    if Cong(d, 0, m) {
      CongScale(i, d, 0, m);
      assert i * d == d * i;
      OneNotZero(m);
    }
  }

  lemma OneNotZero(m: nat)
    requires m > 1
    ensures !Cong(1, 0, m)
  {}

  lemma InvertProduct(a: int, b: int, m: nat)
    requires m > 0 && Invertible(a, m) && Invertible(b, m)
    ensures Invertible(a * b, m)
  {
    var i :| InverseOf(a, i, m);
    var j :| InverseOf(b, j, m);
    CongMul(a * i, 1, b * j, 1, m);
    assert (a * i) * (b * j) == (a * b) * (i * j) by { FourFactors(a, i, b, j); }
    assert InverseOf(a * b, i * j, m);
  }

  lemma FourFactors(a: int, b: int, c: int, d: int)
    ensures (a * b) * (c * d) == (a * c) * (b * d)
  {}

  lemma InvertCong(a: int, b: int, m: nat)
    requires m > 0 && Invertible(a, m) && Cong(b, a, m)
    ensures Invertible(b, m)
  {
    var i :| InverseOf(a, i, m);
    CongScale(i, b, a, m);
    assert i * b == b * i && i * a == a * i;
    assert InverseOf(b, i, m);
  }

  /** Half of what can be divided by can be divided by. */
  lemma InvertHalf(d: int, m: nat)
    requires m > 0 && Invertible(2 * d, m)
    ensures Invertible(d, m)
  {
    var i :| InverseOf(2 * d, i, m);
    assert (2 * d) * i == d * (2 * i);
    assert InverseOf(d, 2 * i, m);
  }

  /** Coordinates scaled by a common factor k: the point is the affine one. */
  lemma ScaledStands(x: int, y: int, z: int, k: int, c: int, a: int, b: int, r: Affine, m: nat)
    requires m > 0 && Cong(x, (k * k) * a, m) && Cong(y, (k * (k * k)) * b, m) && Cong(z, k * c, m)
    requires Cong(r.x * (c * c), a, m) && Cong(r.y * (c * (c * c)), b, m)
    ensures Cong(x, r.x * (z * z), m) && Cong(y, r.y * (z * (z * z)), m)
  {
    hide Cong;
    CongCube(z, k * c, m);
    PowersOfProduct(k, c);
    CongScale(r.x, z * z, (k * k) * (c * c), m);
    CongScale(r.y, z * (z * z), (k * (k * k)) * (c * (c * c)), m);
    CongScale(k * k, r.x * (c * c), a, m);
    CongScale(k * (k * k), r.y * (c * (c * c)), b, m);
    Swap(r.x, k * k, c * c);
    Swap(r.y, k * (k * k), c * (c * c));
    CongChain(r.x * (z * z), (k * k) * (r.x * (c * c)), (k * k) * a, m);
    CongChain(r.y * (z * (z * z)), (k * (k * k)) * (r.y * (c * (c * c))), (k * (k * k)) * b, m);
    CongFlip(r.x * (z * z), (k * k) * a, m);
    CongFlip(r.y * (z * (z * z)), (k * (k * k)) * b, m);
    CongChain(x, (k * k) * a, r.x * (z * z), m);
    CongChain(y, (k * (k * k)) * b, r.y * (z * (z * z)), m);
  }

  lemma PowersOfProduct(k: int, c: int)
    ensures (k * c) * (k * c) == (k * k) * (c * c)
    ensures (k * c) * ((k * c) * (k * c)) == (k * (k * k)) * (c * (c * c))
  {
    FourFactors(k, c, k, c);
    FourFactors(k, c, k * k, c * c);
  }

  lemma Swap(r: int, k: int, c: int)
    ensures r * (k * c) == k * (r * c)
  {}

  /** Reducing the coordinates changes nothing. */
  lemma ReducedStands(x: int, y: int, z: int, r: Affine, m: nat)
    requires m > 0 && Cong(x, r.x * (z * z), m) && Cong(y, r.y * (z * (z * z)), m) && Invertible(z, m)
    ensures Stands(Pt(Reduce(x, m), Reduce(y, m), Reduce(z, m)), r, m)
  {
    var x2, y2, z2 := Reduce(x, m), Reduce(y, m), Reduce(z, m);
    CongMod(x, m);
    CongMod(y, m);
    CongMod(z, m);
    InvertCong(z, z2, m);
    hide Cong, Reduce;
    CongFlip(z2, z, m);
    CongCube(z, z2, m);
    CongScale(r.x, z * z, z2 * z2, m);
    CongScale(r.y, z * (z * z), z2 * (z2 * z2), m);
    CongChain(x2, x, r.x * (z * z), m);
    CongChain(x2, r.x * (z * z), r.x * (z2 * z2), m);
    CongChain(y2, y, r.y * (z * (z * z)), m);
    CongChain(y2, r.y * (z * (z * z)), r.y * (z2 * (z2 * z2)), m);
  }

  // ---------------------------------------------------------------- doubling

  lemma DblCong(x: int, x2: int, y: int, y2: int, z: int, m: nat)
    requires m > 0 && Cong(x, x2, m) && Cong(y, y2, m)
    ensures Cong(DblX(x, y, z), DblX(x2, y2, z), m) && Cong(DblY(x, y, z), DblY(x2, y2, z), m)
    ensures Cong(DblZ(y, z), DblZ(y2, z), m)
  {
    hide Cong;
    var k := z * z;
    CongRefl(k, m);
    CongSub(x, x2, k, k, m);
    CongAdd(x, x2, k, k, m);
    CongMul(x - k, x2 - k, x + k, x2 + k, m);
    var a, b := 3 * ((x - k) * (x + k)), 3 * ((x2 - k) * (x2 + k));
    CongScale(3, (x - k) * (x + k), (x2 - k) * (x2 + k), m);
    CongMul(a, b, a, b, m);
    CongMul(y, y2, y, y2, m);
    var g, h := y * y, y2 * y2;
    CongMul(x, x2, g, h, m);
    CongScale(8, x * g, x2 * h, m);
    CongSub(a * a, b * b, 8 * (x * g), 8 * (x2 * h), m);
    CongScale(4, x * g, x2 * h, m);
    CongSub(4 * (x * g), 4 * (x2 * h), DblX(x, y, z), DblX(x2, y2, z), m);
    CongMul(a, b, 4 * (x * g) - DblX(x, y, z), 4 * (x2 * h) - DblX(x2, y2, z), m);
    CongMul(g, h, g, h, m);
    CongScale(8, g * g, h * h, m);
    CongSub(a * (4 * (x * g) - DblX(x, y, z)), b * (4 * (x2 * h) - DblX(x2, y2, z)), 8 * (g * g), 8 * (h * h), m);
    CongRefl(z, m);
    CongMul(y, y2, z, z, m);
    CongScale(2, y * z, y2 * z, m);
  }

  /** The doubling formulas on scaled coordinates, with w = z^4. */
  lemma DblExact(x: int, y: int, z: int)
    ensures
      var k := z * z;
      var w := k * k;
      var t := 3 * ((x - 1) * (x + 1));
      var d := t * t - 8 * (x * (y * y));
      && DblX(x * k, y * (z * k), z) == (w * w) * d
      && DblY(x * k, y * (z * k), z) == (w * (w * w)) * (t * (4 * (x * (y * y)) - d) - 8 * ((y * y) * (y * y)))
      && DblZ(y * (z * k), z) == w * (2 * y)
  {
    var k := z * z;
    var w, g := k * k, y * y;
    var t := 3 * ((x - 1) * (x + 1));
    var d := t * t - 8 * (x * g);
    var a := 3 * ((x * k - k) * (x * k + k));
    assert a == w * t by { SlopeScaled(x, k); }
    assert (y * (z * k)) * (y * (z * k)) == g * (k * w) by { HeightScaled(y, z); }
    assert (x * k) * (g * (k * w)) == (w * w) * (x * g) by { Rescale(x, k, g, w); }
    assert (w * t) * (w * t) == (w * w) * (t * t) by { FourFactors(w, t, w, t); }
    var e := w * w;
    assert DblX(x * k, y * (z * k), z) == e * d;
    assert (w * t) * (4 * (e * (x * g)) - e * d) == (w * e) * (t * (4 * (x * g) - d)) by { Lift(w, t, e, x * g, d); }
    assert (g * (k * w)) * (g * (k * w)) == (w * e) * (g * g) by { SixthPower(g, k, w); }
    assert (y * (z * k)) * z == w * y by { FourthPower(y, z); }
  }

  lemma SlopeScaled(x: int, k: int)
    ensures 3 * ((x * k - k) * (x * k + k)) == (k * k) * (3 * ((x - 1) * (x + 1)))
  {
    assert x * k - k == (x - 1) * k && x * k + k == (x + 1) * k;
    FourFactors(x - 1, k, x + 1, k);
  }

  lemma HeightScaled(y: int, z: int)
    ensures
      var k := z * z;
      (y * (z * k)) * (y * (z * k)) == (y * y) * (k * (k * k))
  {
    var k := z * z;
    FourFactors(y, z * k, y, z * k);
    FourFactors(z, k, z, k);
  }

  lemma Rescale(x: int, k: int, g: int, w: int)
    requires w == k * k
    ensures (x * k) * (g * (k * w)) == (w * w) * (x * g)
  {
    FourFactors(x, k, g, k * w);
    MulAssoc(k, k, w);
  }

  lemma Lift(w: int, t: int, e: int, q: int, d: int)
    ensures (w * t) * (4 * (e * q) - e * d) == (w * e) * (t * (4 * q - d))
  {
    assert 4 * (e * q) - e * d == e * (4 * q - d);
    FourFactors(w, t, e, 4 * q - d);
  }

  lemma SixthPower(g: int, k: int, w: int)
    requires w == k * k
    ensures (g * (k * w)) * (g * (k * w)) == (w * (w * w)) * (g * g)
  {
    FourFactors(g, k * w, g, k * w);
    FourFactors(k, w, k, w);
  }

  lemma FourthPower(y: int, z: int)
    ensures (y * (z * (z * z))) * z == ((z * z) * (z * z)) * y
  {
    var k := z * z;
    assert (y * (z * k)) * z == y * ((z * k) * z);
    assert (z * k) * z == k * k;
  }

  /** The slope c s = t applied: c^2 (s^2 - e) and c^3 (s (x - rx) - y). */
  lemma SlopeTerms(c: int, s: int, e: int, x: int, rx: int, y: int)
    ensures (s * s - e) * (c * c) == (c * s) * (c * s) - e * (c * c)
    ensures (s * (x - rx) - y) * (c * (c * c)) == (c * s) * (x * (c * c) - rx * (c * c)) - y * (c * (c * c))
  {
    FourFactors(c, s, c, s);
    assert (s * s - e) * (c * c) == (s * s) * (c * c) - e * (c * c);
    var w := c * c;
    assert (s * (x - rx) - y) * (c * w) == (s * (x - rx)) * (c * w) - y * (c * w);
    FourFactors(s, x - rx, c, w);
    assert s * c == c * s;
    assert (x - rx) * w == x * w - rx * w;
  }

  /** The third point of a line of slope s with c s = t, cleared of denominators. */
  lemma LineCong(c: int, s: int, t: int, e: int, x: int, y: int, rx: int, ry: int, d: int, m: nat)
    requires m > 0 && Cong(c * s, t, m) && Cong(rx, s * s - e, m) && Cong(ry, s * (x - rx) - y, m)
    requires d == t * t - e * (c * c)
    ensures Cong(rx * (c * c), d, m)
    ensures Cong(ry * (c * (c * c)), t * (x * (c * c) - d) - y * (c * (c * c)), m)
  {
    hide Cong;
    var w := c * c;
    SlopeTerms(c, s, e, x, rx, y);
    CongMul(c * s, t, c * s, t, m);
    CongRefl(e * w, m);
    CongSub((c * s) * (c * s), t * t, e * w, e * w, m);
    CongScale(w, rx, s * s - e, m);
    assert w * rx == rx * w && w * (s * s - e) == (s * s - e) * w;
    CongChain(rx * w, (s * s - e) * w, d, m);
    CongRefl(x * w, m);
    CongSub(x * w, x * w, rx * w, d, m);
    CongMul(c * s, t, x * w - rx * w, x * w - d, m);
    CongRefl(y * (c * w), m);
    CongSub((c * s) * (x * w - rx * w), t * (x * w - d), y * (c * w), y * (c * w), m);
    CongScale(c * w, ry, s * (x - rx) - y, m);
    assert (c * w) * ry == ry * (c * w) && (c * w) * (s * (x - rx) - y) == (s * (x - rx) - y) * (c * w);
    CongChain(ry * (c * w), (s * (x - rx) - y) * (c * w), t * (x * w - d) - y * (c * w), m);
  }

  lemma TwicePowers(x: int, y: int)
    ensures
      var c, g := 2 * y, y * y;
      && 2 * x * (c * c) == 8 * (x * g) && x * (c * c) == 4 * (x * g)
      && y * (c * (c * c)) == 8 * (g * g)
  {
    var g := y * y;
    assert (2 * y) * (2 * y) == 4 * g;
    assert y * ((2 * y) * (4 * g)) == 8 * (g * g);
  }

  /** The doubling formulas are the tangent. */
  lemma DblStands(v: Pt, a: Affine, r: Affine, m: nat)
    requires m > 1 && Stands(v, a, m) && Tangent(a, r, m)
    ensures Stands(Dbl(v, m), r, m)
  {
    var s :| TangentBy(a, r, s, m);
    var k := v.z * v.z;
    var w, c, g := k * k, 2 * a.y, a.y * a.y;
    var t := 3 * ((a.x - 1) * (a.x + 1));
    var d := t * t - 8 * (a.x * g);
    var e := t * (4 * (a.x * g) - d) - 8 * (g * g);
    DblCong(v.x, a.x * k, v.y, a.y * (v.z * k), v.z, m);
    DblExact(a.x, a.y, v.z);
    TwicePowers(a.x, a.y);
    LineCong(c, s, t, 2 * a.x, a.x, a.y, r.x, r.y, d, m);
    ScaledStands(DblX(v.x, v.y, v.z), DblY(v.x, v.y, v.z), DblZ(v.y, v.z), w, c, d, e, r, m);
    InvertProduct(v.z, v.z, m);
    InvertProduct(k, k, m);
    InvertProduct(w, c, m);
    InvertCong(w * c, DblZ(v.y, v.z), m);
    ReducedStands(DblX(v.x, v.y, v.z), DblY(v.x, v.y, v.z), DblZ(v.y, v.z), r, m);
    NotInfinite(v, a, m);
    hide *;
  }

  /** A point that stands for an affine one with y not zero is neither branch of pt_dbl. */
  lemma NotInfinite(v: Pt, a: Affine, m: nat)
    requires m > 1 && Stands(v, a, m) && Invertible(2 * a.y, m)
    ensures v.z != 0 && v.y != 0
  {
    NotZero(v.z, m);
    CongRefl(0, m);
    InvertHalf(a.y, m);
    InvertProduct(v.z, v.z, m);
    InvertProduct(v.z, v.z * v.z, m);
    InvertProduct(a.y, v.z * (v.z * v.z), m);
    InvertCong(a.y * (v.z * (v.z * v.z)), v.y, m);
    NotZero(v.y, m);
  }

  // ---------------------------------------------------------------- addition

  lemma ChordScaled(u: int, h: int, s: int, r: int, k: int, x: int, y: int, d: int, e: int)
    requires u == x * (k * k) && h == d * (k * k) && s == y * (k * (k * k)) && r == e * (k * (k * k))
    ensures
      var q := k * (k * k);
      && ChordX(u, h, r) == (q * q) * ChordX(x, d, e)
      && ChordY(u, h, s, r) == (q * (q * q)) * ChordY(x, d, y, e)
  {
    var w := k * k;
    var q := k * w;
    assert q * q == w * (w * w) by { FourFactors(k, w, k, w); }
    assert r * r == (q * q) * (e * e) by { FourFactors(e, q, e, q); }
    assert h * h == (w * w) * (d * d) by { FourFactors(d, w, d, w); }
    assert h * (h * h) == (q * q) * (d * (d * d)) by { FourFactors(d, w, d * d, w * w); }
    assert u * (h * h) == (q * q) * (x * (d * d)) by { FourFactors(x, w, d * d, w * w); }
    var c, p := ChordX(x, d, e), q * q;
    assert ChordX(u, h, r) == p * c by { ThreeTerms(p, e * e, d * (d * d), x * (d * d)); }
    assert r * (p * (x * (d * d)) - p * c) == (q * p) * (e * (x * (d * d) - c)) by { LiftChord(e, q, p, x * (d * d), c); }
    assert s * (p * (d * (d * d))) == (q * p) * (y * (d * (d * d))) by { FourFactors(y, q, d * (d * d), p); }
    TwoTerms(q * p, e * (x * (d * d) - c), y * (d * (d * d)));
  }

  lemma ThreeTerms(p: int, a: int, b: int, c: int)
    ensures p * a - p * b - 2 * (p * c) == p * (a - b - 2 * c)
  {}

  lemma TwoTerms(p: int, a: int, b: int)
    ensures p * a - p * b == p * (a - b)
  {}

  lemma LiftChord(e: int, q: int, p: int, a: int, c: int)
    ensures (e * q) * (p * a - p * c) == (q * p) * (e * (a - c))
  {
    assert p * a - p * c == p * (a - c);
    FourFactors(e, q, p, a - c);
    FourFactors(q, p, e, a - c);
    assert (e * p) * (q * (a - c)) == (q * p) * (e * (a - c));
  }

  lemma ChordCong(u: int, u2: int, h: int, h2: int, s: int, s2: int, r: int, r2: int, m: nat)
    requires m > 0 && Cong(u, u2, m) && Cong(h, h2, m) && Cong(s, s2, m) && Cong(r, r2, m)
    ensures Cong(ChordX(u, h, r), ChordX(u2, h2, r2), m) && Cong(ChordY(u, h, s, r), ChordY(u2, h2, s2, r2), m)
  {
    hide Cong;
    CongCube(r, r2, m);
    CongCube(h, h2, m);
    CongMul(u, u2, h * h, h2 * h2, m);
    CongScale(2, u * (h * h), u2 * (h2 * h2), m);
    CongSub(r * r, r2 * r2, h * (h * h), h2 * (h2 * h2), m);
    CongSub(r * r - h * (h * h), r2 * r2 - h2 * (h2 * h2), 2 * (u * (h * h)), 2 * (u2 * (h2 * h2)), m);
    var a, b := u * (h * h) - ChordX(u, h, r), u2 * (h2 * h2) - ChordX(u2, h2, r2);
    CongSub(u * (h * h), u2 * (h2 * h2), ChordX(u, h, r), ChordX(u2, h2, r2), m);
    CongMul(r, r2, a, b, m);
    CongMul(s, s2, h * (h * h), h2 * (h2 * h2), m);
    CongSub(r * a, r2 * b, s * (h * (h * h)), s2 * (h2 * (h2 * h2)), m);
  }

  /** A coordinate brought over the common denominator. */
  lemma CrossScaled(v: Pt, a: Affine, z: int, m: nat)
    requires m > 0 && Stands(v, a, m)
    ensures
      var k := v.z * z;
      Cong(U(v.x, z), a.x * (k * k), m) && Cong(S(v.y, z), a.y * (k * (k * k)), m)
  {
    var w := v.z;
    CongMul(v.x, a.x * (w * w), z * z, z * z, m) by { CongRefl(z * z, m); }
    CongMul(v.y, a.y * (w * (w * w)), z * (z * z), z * (z * z), m) by { CongRefl(z * (z * z), m); }
    PowersOfProduct(w, z);
    MulAssoc(a.x, w * w, z * z);
    MulAssoc(a.y, w * (w * w), z * (z * z));
  }

  /** The differences of the two points over the common denominator k. */
  lemma DifferencesScaled(v: Pt, w: Pt, p: Affine, q: Affine, m: nat)
    requires m > 0 && Stands(v, p, m) && Stands(w, q, m)
    ensures
      var k := v.z * w.z;
      && Cong(U(v.x, w.z), p.x * (k * k), m) && Cong(S(v.y, w.z), p.y * (k * (k * k)), m)
      && Cong(U(w.x, v.z) - U(v.x, w.z), (q.x - p.x) * (k * k), m)
      && Cong(S(w.y, v.z) - S(v.y, w.z), (q.y - p.y) * (k * (k * k)), m)
  {
    var k := v.z * w.z;
    CrossScaled(v, p, w.z, m);
    CrossScaled(w, q, v.z, m);
    assert w.z * v.z == k;
    hide Cong, U, S, Stands;
    CongSub(U(w.x, v.z), q.x * (k * k), U(v.x, w.z), p.x * (k * k), m);
    CongSub(S(w.y, v.z), q.y * (k * (k * k)), S(v.y, w.z), p.y * (k * (k * k)), m);
    Difference(q.x, p.x, k * k);
    Difference(q.y, p.y, k * (k * k));
  }

  lemma Difference(a: int, b: int, k: int)
    ensures a * k - b * k == (a - b) * k
  {}

  lemma ChordLine(d: int, e: int, x: int, y: int)
    ensures (2 * e) * (2 * e) - (2 * x + d) * ((2 * d) * (2 * d)) == 4 * ChordX(x, d, e)
    ensures (2 * e) * (x * ((2 * d) * (2 * d)) - 4 * ChordX(x, d, e)) - y * ((2 * d) * ((2 * d) * (2 * d))) == 8 * ChordY(x, d, y, e)
  {
    var w, c := d * d, ChordX(x, d, e);
    assert (2 * d) * (2 * d) == 4 * w;
    assert (2 * x + d) * (4 * w) == 8 * (x * w) + 4 * (d * w);
    assert (2 * d) * (4 * w) == 8 * (d * w);
    assert y * (8 * (d * w)) == 8 * (y * (d * w));
    assert x * (4 * w) == 4 * (x * w);
    assert (2 * e) * (4 * (x * w) - 4 * c) == 8 * (e * (x * w - c)) by {
      assert 4 * (x * w) - 4 * c == 4 * (x * w - c);
    }
  }

  /** The addition formulas are the chord: pt_add takes neither of its other branches. */
  lemma AddStands(v: Pt, w: Pt, p: Affine, q: Affine, r: Affine, m: nat)
    requires m > 1 && Stands(v, p, m) && Stands(w, q, m) && Chord(p, q, r, m)
    ensures Stands(Add(v, w, m), r, m)
  {
    var l :| ChordBy(p, q, r, l, m);
    var k := v.z * w.z;
    var q3 := k * (k * k);
    var d, e := q.x - p.x, q.y - p.y;
    var u, s := U(v.x, w.z), S(v.y, w.z);
    var h, n := U(w.x, v.z) - u, S(w.y, v.z) - s;
    DifferencesScaled(v, w, p, q, m);
    ChordCong(u, p.x * (k * k), h, d * (k * k), s, p.y * q3, n, e * q3, m);
    ChordScaled(p.x * (k * k), d * (k * k), p.y * q3, e * q3, k, p.x, p.y, d, e);
    ChordLine(d, e, p.x, p.y);
    DoubleSlope(d, l, e, m);
    LineCong(2 * d, l, 2 * e, 2 * p.x + d, p.x, p.y, r.x, r.y, 4 * ChordX(p.x, d, e), m);
    FourTimes(ChordX(u, h, n), q3 * q3, ChordX(p.x, d, e), 4, m);
    FourTimes(ChordY(u, h, s, n), q3 * (q3 * q3), ChordY(p.x, d, p.y, e), 8, m);
    ThirdZ(k, h, d, m);
    ScaledStands(4 * ChordX(u, h, n), 8 * ChordY(u, h, s, n), 2 * k * h, q3, 2 * d, 4 * ChordX(p.x, d, e), 8 * ChordY(p.x, d, p.y, e), r, m);
    InvertChord(v.z, w.z, h, d, m);
    ReducedStands(4 * ChordX(u, h, n), 8 * ChordY(u, h, s, n), 2 * k * h, r, m);
    hide ChordX, ChordY, U, S, Chord, ChordBy, Dbl, Invertible;
  }

  lemma DoubleSlope(d: int, l: int, e: int, m: nat)
    requires m > 0 && Cong(d * l, e, m)
    ensures Cong((2 * d) * l, 2 * e, m)
  {
    CongScale(2, d * l, e, m);
    assert (2 * d) * l == 2 * (d * l);
  }

  lemma FourTimes(x: int, q: int, c: int, n: int, m: nat)
    requires m > 0 && Cong(x, q * c, m)
    ensures Cong(n * x, q * (n * c), m)
  {
    CongScale(n, x, q * c, m);
    Swap(n, q, c);
  }

  lemma ThirdZ(k: int, h: int, d: int, m: nat)
    requires m > 0 && Cong(h, d * (k * k), m)
    ensures Cong(2 * k * h, (k * (k * k)) * (2 * d), m)
  {
    CongScale(2 * k, h, d * (k * k), m);
    assert (2 * k) * (d * (k * k)) == (k * (k * k)) * (2 * d);
  }

  /** The two points have different x coordinates, and the new z can be divided by. */
  lemma InvertChord(z: int, z2: int, h: int, d: int, m: nat)
    requires m > 1 && Invertible(z, m) && Invertible(z2, m) && Invertible(2 * d, m)
    requires Cong(h, d * ((z * z2) * (z * z2)), m) && Cong(2 * (z * z2) * h, ((z * z2) * ((z * z2) * (z * z2))) * (2 * d), m)
    ensures z != 0 && z2 != 0 && Reduce(h, m) != 0 && Invertible(2 * (z * z2) * h, m)
  {
    var k := z * z2;
    NotZero(z, m);
    NotZero(z2, m);
    CongRefl(0, m);
    InvertHalf(d, m);
    InvertProduct(z, z2, m);
    InvertProduct(k, k, m);
    InvertProduct(k, k * k, m);
    InvertProduct(d, k * k, m);
    InvertCong(d * (k * k), h, m);
    NotZero(h, m);
    InvertProduct(k * (k * k), 2 * d, m);
    InvertCong((k * (k * k)) * (2 * d), 2 * k * h, m);
    ReduceZero(h, m);
  }

  lemma ReduceZero(h: int, m: nat)
    requires m > 0 && !Cong(h, 0, m)
    ensures Reduce(h, m) != 0
  {
    CongMod(0, m);
  }

  // ---------------------------------------------------------------- multiples

  /** Every step of double-and-add down from k is a tangent or a chord of the multiples f. */
  ghost predicate Multiples(f: nat -> Affine, k: nat, m: nat)
    requires m > 0
  {
    k <= 1 || (&& Multiples(f, k / 2, m) && Tangent(f(k / 2), f(k / 2 * 2), m)
               && (k % 2 == 1 ==> Chord(f(k - 1), f(1), f(k), m)))
  }

  /** pt_mul computes the multiple k of a point, for every k whose steps meet no exceptional pair. */
  lemma {:induction false} MulStands(f: nat -> Affine, p: Pt, k: nat, m: nat)
    requires m > 1 && k >= 1 && Multiples(f, k, m) && Stands(p, f(1), m)
    ensures Stands(Mul(p, k, m), f(k), m)
  {
    hide Stands, Tangent, Chord, Dbl, Add;
    if k == 1 {
      MulOne(p, m);
    } else {
      MulStands(f, p, k / 2, m);
      var d := Dbl(Mul(p, k / 2, m), m);
      DblStands(Mul(p, k / 2, m), f(k / 2), f(k / 2 * 2), m);
      if k % 2 == 1 {
        AddStands(d, p, f(k - 1), f(1), f(k), m);
      }
    }
  }

  lemma MulOne(p: Pt, m: nat)
    requires m > 0
    ensures Mul(p, 1, m) == p
  {
    assert Mul(p, 0, m) == INFINITY;
    assert Dbl(INFINITY, m) == INFINITY;
  }

  /** The affine x coordinate pt_to_affine_x computes, where z^(m - 2) inverts z. */
  lemma AffineXStands(v: Pt, a: Affine, m: nat)
    requires m > 2 && Stands(v, a, m) && Cong(v.z * Pow(v.z, m - 2), 1, m)
    ensures
      var i := Pow(v.z, m - 2);
      Reduce(v.x * (i * i), m) == a.x % m
  {
    var i := Pow(v.z, m - 2);
    CongRefl(i * i, m);
    CongMul(v.x, a.x * (v.z * v.z), i * i, i * i, m);
    CongMul(v.z * i, 1, v.z * i, 1, m);
    CongScale(a.x, (v.z * i) * (v.z * i), 1, m);
    FourFactors(v.z, i, v.z, i);
    MulAssoc(a.x, v.z * v.z, i * i);
    CongChain(v.x * (i * i), a.x * ((v.z * v.z) * (i * i)), a.x, m);
  }

  /** pt_mul followed by pt_to_affine_x gives the x coordinate of the multiple. */
  lemma AffineXOfMultiple(f: nat -> Affine, p: Pt, k: nat, m: nat)
    requires m > 2 && k >= 1 && Multiples(f, k, m) && Stands(p, f(1), m)
    requires Cong(Mul(p, k, m).z * Pow(Mul(p, k, m).z, m - 2), 1, m)
    ensures
      var i := Pow(Mul(p, k, m).z, m - 2);
      Reduce(Mul(p, k, m).x * (i * i), m) == f(k).x % m
  {
    MulStands(f, p, k, m);
    AffineXStands(Mul(p, k, m), f(k), m);
    hide *;
  }
}
