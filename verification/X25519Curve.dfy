/** What a Montgomery ladder computes on a curve y^2 = x^3 + a x^2 + x (RFC 7748, section 4.1, has
    a = 486662): its two formulas are tangent and chord on the x coordinate alone, so it carries
    the x coordinates of two neighbouring multiples of the point it starts from.  The coefficient
    is written a = 4 k + 2, because the formulas use k; the modulus m is any. */
module X25519Curve {
  import opened Words
  import opened X25519Field
  import opened X25519Spec

  datatype Point = Point(x: int, y: int)

  function Right(x: int, a: int): int {
    x * (x * x) + a * (x * x) + x
  }

  ghost predicate OnCurve(p: Point, a: int, m: nat)
    requires m > 0
  {
    Cong(p.y * p.y, Right(p.x, a), m)
  }

  /** r is the x coordinate of the double of p: the tangent has a slope, and meets the curve there. */
  ghost predicate Tangent(p: Point, r: int, a: int, m: nat)
    requires m > 0
  {
    exists s :: TangentBy(p, r, s, a, m)
  }

  ghost predicate TangentBy(p: Point, r: int, s: int, a: int, m: nat)
    requires m > 0
  {
    Cong((2 * p.y) * s, Slope(p.x, a), m) && Cong(r, s * s - (a + 2 * p.x), m)
  }

  function Slope(x: int, a: int): int {
    3 * (x * x) + 2 * (a * x) + 1
  }

  /** r is the x coordinate of p + q, or of q - p when sign is -1, by the chord. */
  ghost predicate Chord(p: Point, q: Point, sign: int, r: int, a: int, m: nat)
    requires m > 0
  {
    exists s :: ChordBy(p, q, sign, r, s, a, m)
  }

  ghost predicate ChordBy(p: Point, q: Point, sign: int, r: int, s: int, a: int, m: nat)
    requires m > 0
  {
    Cong((q.x - p.x) * s, q.y - sign * p.y, m) && Cong(r, s * s - (a + (p.x + q.x)), m)
  }

  /** The x coordinates of the two points differ by something that can be divided by. */
  ghost predicate Apart(p: Point, q: Point, m: nat)
    requires m > 0
  {
    exists i :: ApartBy(p, q, i, m)
  }

  ghost predicate ApartBy(p: Point, q: Point, i: int, m: nat)
    requires m > 0
  {
    Cong((q.x - p.x) * i, 1, m)
  }

  /** v is the projective form of the x coordinate x. */
  ghost predicate Stands(v: Xz, x: int, m: nat)
    requires m > 0
  {
    Cong(v.x, x * v.z, m)
  }

  // ---------------------------------------------------------------- polynomial identities

  lemma SlopeSquare(x2: int, ax: int)
    ensures (3 * x2 + 2 * ax + 1) * (3 * x2 + 2 * ax + 1)
         == 9 * (x2 * x2) + 12 * (x2 * ax) + 4 * (ax * ax) + 6 * x2 + 4 * ax + 1
  {}

  lemma TangentRight(x: int, a: int)
    ensures (a + 2 * x) * Right(x, a)
         == (x * x) * (a * x) + (a * x) * (a * x) + a * x + 2 * ((x * x) * (x * x)) + 2 * ((x * x) * (a * x)) + 2 * (x * x)
  {}

  lemma Spread(c: int, x: int, y: int, z: int)
    ensures c * (x + y + z) == c * x + c * y + c * z
  {}

  lemma SquareOfProduct(y: int, z: int)
    ensures (y * z) * (y * z) == (y * y) * (z * z)
  {}

  lemma SquareMinusOne(x: int)
    ensures (x - 1) * (x - 1) == x * x - 2 * x + 1
  {}

  lemma TangentIdentity(x: int, a: int)
    ensures Slope(x, a) * Slope(x, a) - (a + 2 * x) * (4 * Right(x, a)) == (x * x - 1) * (x * x - 1)
  {
    SlopeSquare(x * x, a * x);
    TangentRight(x, a);
    SquareMinusOne(x * x);
    assert (a + 2 * x) * (4 * Right(x, a)) == 4 * ((a + 2 * x) * Right(x, a));
  }

  lemma SquareOfThree(u: int, s: int, v: int)
    ensures (u + s + 2 * v) * (u + s + 2 * v) == u * u + s * s + 4 * (v * v) + 2 * (u * s) + 4 * (u * v) + 4 * (s * v)
  {}

  /** The numerator of a chord, in the sum s and the product p of two x coordinates. */
  function Numerator(s: int, p: int, a: int): int {
    s * (p + 1) + 2 * (a * p)
  }

  lemma ChordLeft(s: int, p: int, a: int)
    ensures Numerator(s, p, a) * Numerator(s, p, a)
         == (s * s) * (p * p) + 2 * ((s * s) * p) + s * s + 4 * (a * (s * (p * p))) + 4 * (a * (s * p)) + 4 * ((a * a) * (p * p))
  {
    var u, v := s * p, a * p;
    assert s * (p + 1) == u + s;
    SquareOfThree(u, s, v);
    SquareOfProduct(s, p);
    SquareOfProduct(a, p);
    assert u * s == (s * s) * p && u * v == a * (s * (p * p)) && s * v == a * u by { LeftMonomials(s, p, a); }
  }

  lemma LeftMonomials(s: int, p: int, a: int)
    ensures (s * p) * s == (s * s) * p && (s * p) * (a * p) == a * (s * (p * p)) && s * (a * p) == a * (s * p)
  {
    assert (s * p) * (a * p) == a * ((s * p) * p);
    assert (s * p) * p == s * (p * p);
  }

  /** y^2 y'^2 / p in the sum s and the product p of the two x coordinates. */
  function Factor(s: int, p: int, a: int): int {
    p * p + a * (p * s) + (s * s - 2 * p) + (a * a) * p + a * s + 1
  }

  lemma ChordMiddle(s: int, p: int, a: int)
    ensures p * Factor(s, p, a)
         == p * (p * p) + a * (s * (p * p)) + (s * s) * p - 2 * (p * p) + (a * a) * (p * p) + a * (s * p) + p
  {
    FiveTerms(p, p * p, a * (p * s), s * s - 2 * p, (a * a) * p, a * s);
    MiddleMonomial(p, a, s);
    MiddleTerms(p, a, s);
  }

  lemma MiddleTerms(p: int, a: int, s: int)
    ensures p * (s * s - 2 * p) == (s * s) * p - 2 * (p * p)
    ensures p * ((a * a) * p) == (a * a) * (p * p) && p * (a * s) == a * (s * p)
  {
    var c := a * a;
    assert p * (c * p) == c * (p * p);
  }

  lemma MiddleMonomial(p: int, a: int, s: int)
    ensures p * (a * (p * s)) == a * (s * (p * p))
  {
    assert p * (a * (p * s)) == a * (p * (p * s));
    assert p * (p * s) == s * (p * p);
  }

  lemma FiveTerms(p: int, u: int, v: int, w: int, x: int, y: int)
    ensures p * (u + v + w + x + y + 1) == p * u + p * v + p * w + p * x + p * y + p
  {
    assert p * (u + v + w + x + y + 1) == p * (u + v + w) + p * (x + y + 1);
    Spread(p, u, v, w);
    Spread(p, x, y, 1);
  }

  lemma ChordRight(s: int, p: int)
    ensures (s * s - 4 * p) * ((p - 1) * (p - 1))
         == (s * s) * (p * p) - 2 * ((s * s) * p) + s * s - 4 * (p * (p * p)) + 8 * (p * p) - 4 * p
  {
    var w := s * s;
    SquareMinusOne(p);
    assert (w - 4 * p) * (p * p - 2 * p + 1) == w * (p * p - 2 * p + 1) - 4 * (p * (p * p - 2 * p + 1));
    assert w * (p * p - 2 * p + 1) == w * (p * p) - 2 * (w * p) + w;
    assert p * (p * p - 2 * p + 1) == p * (p * p) - 2 * (p * p) + p;
  }

  lemma ChordIdentity(s: int, p: int, a: int)
    ensures Numerator(s, p, a) * Numerator(s, p, a) - 4 * (p * Factor(s, p, a)) == (s * s - 4 * p) * ((p - 1) * (p - 1))
  {
    ChordLeft(s, p, a);
    ChordMiddle(s, p, a);
    ChordRight(s, p);
    hide Numerator, Factor;
  }

  lemma TrinomialProduct(x2: int, ax: int, y2: int, ay: int)
    ensures (x2 + ax + 1) * (y2 + ay + 1) == x2 * y2 + x2 * ay + x2 + ax * y2 + ax * ay + ax + y2 + ay + 1
  {}

  /** The monomials of two numbers in terms of their product. */
  lemma Monomials(x: int, y: int, a: int)
    ensures
      var p := x * y;
      && (x * x) * (y * y) == p * p && (x * x) * (a * y) == a * (p * x) && (a * x) * (y * y) == a * (p * y)
      && (a * x) * (a * y) == (a * a) * p && p * (x + y) == p * x + p * y && a * (x + y) == a * x + a * y
      && (x + y) * (x + y) == x * x + 2 * p + y * y && a * (p * (x + y)) == a * (p * x) + a * (p * y)
  {
    SquareOfProduct(x, y);
    assert (x * x) * (a * y) == a * ((x * x) * y) && (x * x) * y == (x * y) * x;
    assert (a * x) * (y * y) == a * (x * (y * y)) && x * (y * y) == (x * y) * y;
    assert (a * x) * (a * y) == (a * a) * (x * y);
    var p := x * y;
    assert p * (x + y) == p * x + p * y;
    assert a * (p * x + p * y) == a * (p * x) + a * (p * y);
    assert (x + y) * (x + y) == x * x + 2 * p + y * y;
  }

  lemma FactorProduct(x: int, y: int, a: int)
    ensures (x * x + a * x + 1) * (y * y + a * y + 1) == Factor(x + y, x * y, a)
  {
    TrinomialProduct(x * x, a * x, y * y, a * y);
    Monomials(x, y, a);
  }

  /** y^2 y'^2 through the curve equation. */
  lemma RightProduct(x: int, y: int, a: int)
    ensures Right(x, a) * Right(y, a) == (x * y) * Factor(x + y, x * y, a)
  {
    var f, h := x * x + a * x + 1, y * y + a * y + 1;
    RightFactor(x, a);
    RightFactor(y, a);
    assert (x * f) * (y * h) == (x * y) * (f * h);
    FactorProduct(x, y, a);
    hide Factor, Right;
  }

  lemma RightFactor(x: int, a: int)
    ensures Right(x, a) == x * (x * x + a * x + 1)
  {
    Spread(x, x * x, a * x, 1);
    assert x * (a * x) == a * (x * x);
  }

  lemma SumTimesSquare(x: int, y: int, a: int, w: int)
    ensures (a + (x + y)) * w == a * w + x * w + y * w
  {}

  /** The two curve equations and the square of the chord's run. */
  lemma ChordSum(x: int, y: int, a: int)
    ensures Right(x, a) + Right(y, a) - (a + (x + y)) * ((y - x) * (y - x)) == Numerator(x + y, x * y, a)
  {
    var p, x2, y2 := x * y, x * x, y * y;
    RunSquare(x, y);
    SumTimesSquare(x, y, a, y2 - 2 * p + x2);
    Spread3(a, y2, p, x2);
    TimesRun(x, y);
    TimesRun(y, x);
    assert y * x == p;
    SumTimes(x, y, p);
  }

  lemma RunSquare(x: int, y: int)
    ensures (y - x) * (y - x) == y * y - 2 * (x * y) + x * x
  {}

  lemma Spread3(a: int, y2: int, p: int, x2: int)
    ensures a * (y2 - 2 * p + x2) == a * y2 - 2 * (a * p) + a * x2
  {}

  lemma SumTimes(x: int, y: int, p: int)
    ensures (x + y) * (p + 1) == p * x + p * y + x + y
  {}

  lemma TimesRun(x: int, y: int)
    ensures x * (y * y - 2 * (x * y) + x * x) == (x * y) * y - 2 * ((x * y) * x) + x * (x * x)
  {
    assert x * (y * y) == (x * y) * y && x * (x * y) == (x * y) * x;
    assert x * (y * y - 2 * (x * y) + x * x) == x * (y * y) - 2 * (x * (x * y)) + x * (x * x);
  }

  // ---------------------------------------------------------------- the two formulas

  lemma CongFlip(x: int, y: int, m: nat)
    requires m > 0 && Cong(x, y, m)
    ensures Cong(y, x, m)
  {}

  lemma CongChain(x: int, y: int, z: int, m: nat)
    requires m > 0 && Cong(x, y, m) && Cong(y, z, m)
    ensures Cong(x, z, m)
  {}

  /** x = y - e and y = z give x = z - e, residue for residue. */
  lemma CongShift(x: int, y: int, z: int, e: int, m: nat)
    requires m > 0 && Cong(x, y - e, m) && Cong(y, z, m)
    ensures Cong(x, z - e, m)
  {
    CongRefl(e, m);
    CongSub(y, z, e, e, m);
    CongChain(x, y - e, z - e, m);
  }

  lemma DoubleTerms(y: int, s: int, right: int, k: int)
    ensures ((2 * y) * s) * ((2 * y) * s) == (4 * (s * s)) * (y * y)
    ensures (4 * (s * s)) * right == (4 * right) * (s * s)
    ensures (4 * right) * (s * s - k) == (4 * right) * (s * s) - k * (4 * right)
  {
    SquareOfProduct(2 * y, s);
  }

  lemma TangentCong(y: int, s: int, right: int, t: int, k: int, r: int, m: nat)
    requires m > 0 && Cong(y * y, right, m) && Cong((2 * y) * s, t, m) && Cong(r, s * s - k, m)
    ensures Cong((4 * right) * r, t * t - k * (4 * right), m)
  {
    hide Cong;
    var f, q := 4 * right, (4 * (s * s)) * (y * y);
    DoubleTerms(y, s, right, k);
    CongMul((2 * y) * s, t, (2 * y) * s, t, m);
    CongScale(4 * (s * s), y * y, right, m);
    CongFlip(q, f * (s * s), m);
    CongChain(f * (s * s), q, t * t, m);
    CongScale(f, r, s * s - k, m);
    CongShift(f * r, f * (s * s), t * t, k * f, m);
  }

  /** Four times the curve's right side times the x coordinate of the double. */
  lemma DoubleX(p: Point, r: int, s: int, a: int, m: nat)
    requires m > 0 && OnCurve(p, a, m) && TangentBy(p, r, s, a, m)
    ensures Cong((4 * Right(p.x, a)) * r, (p.x * p.x - 1) * (p.x * p.x - 1), m)
  {
    TangentIdentity(p.x, a);
    TangentCong(p.y, s, Right(p.x, a), Slope(p.x, a), a + 2 * p.x, r, m);
    hide Cong, Right, Slope;
  }

  lemma ChordTerms(d: int, s: int, k: int)
    ensures (d * s) * (d * s) == (d * d) * (s * s)
    ensures (d * d) * (s * s - k) == (d * d) * (s * s) - k * (d * d)
  {
    SquareOfProduct(d, s);
  }

  lemma ChordCong(y: int, z: int, sign: int, s: int, right: int, right2: int, d: int, k: int, r: int, m: nat)
    requires m > 0 && (sign == 1 || sign == -1)
    requires Cong(y * y, right, m) && Cong(z * z, right2, m) && Cong(d * s, z - sign * y, m) && Cong(r, s * s - k, m)
    ensures Cong((d * d) * r, right + right2 - k * (d * d) - 2 * sign * (y * z), m)
  {
    hide Cong;
    var n, w, e := z - sign * y, 2 * sign * (y * z), k * (d * d);
    ChordTerms(d, s, k);
    SignedSquare(y, z, sign);
    CongMul(d * s, n, d * s, n, m);
    CongAdd(y * y, right, z * z, right2, m);
    CongScale(d * d, r, s * s - k, m);
    CongRefl(w, m);
    CongSub(y * y + z * z, right + right2, w, w, m);
    CongChain((d * d) * (s * s), n * n, right + right2 - w, m);
    CongShift((d * d) * r, (d * d) * (s * s), right + right2 - w, e, m);
  }

  lemma SignedSquare(y: int, z: int, sign: int)
    requires sign == 1 || sign == -1
    ensures (z - sign * y) * (z - sign * y) == y * y + z * z - 2 * sign * (y * z)
  {
    if sign == 1 {
      assert (z - y) * (z - y) == y * y + z * z - 2 * (y * z);
    } else {
      assert (z + y) * (z + y) == y * y + z * z + 2 * (y * z);
    }
  }

  /** The square of the run times the x coordinate the chord gives. */
  lemma ChordX(p: Point, q: Point, sign: int, r: int, s: int, a: int, m: nat)
    requires m > 0 && OnCurve(p, a, m) && OnCurve(q, a, m) && (sign == 1 || sign == -1) && ChordBy(p, q, sign, r, s, a, m)
    ensures
      var d := q.x - p.x;
      Cong((d * d) * r, Numerator(p.x + q.x, p.x * q.x, a) - 2 * sign * (p.y * q.y), m)
  {
    ChordSum(p.x, q.x, a);
    ChordCong(p.y, q.y, sign, s, Right(p.x, a), Right(q.x, a), q.x - p.x, a + (p.x + q.x), r, m);
    hide Cong, Right, Numerator;
  }

  lemma CancelTerms(d: int, i: int, x: int)
    ensures (i * i) * ((d * d) * x) == ((d * i) * (d * i)) * x
  {
    SquareOfProduct(d, i);
    MulAssoc(i * i, d * d, x);
    assert (i * i) * (d * d) == (d * d) * (i * i);
  }

  /** What can be divided by can be cancelled. */
  lemma CongCancel(d: int, i: int, x: int, y: int, m: nat)
    requires m > 0 && Cong(d * i, 1, m) && Cong((d * d) * x, (d * d) * y, m)
    ensures Cong(x, y, m)
  {
    hide Cong;
    CongScale(i * i, (d * d) * x, (d * d) * y, m);
    CancelTerms(d, i, x);
    CancelTerms(d, i, y);
    UnitSquare(d, i, x, m);
    UnitSquare(d, i, y, m);
    CongFlip(((d * i) * (d * i)) * x, x, m);
    CongChain(x, ((d * i) * (d * i)) * x, ((d * i) * (d * i)) * y, m);
    CongChain(x, ((d * i) * (d * i)) * y, y, m);
  }

  lemma UnitSquare(d: int, i: int, x: int, m: nat)
    requires m > 0 && Cong(d * i, 1, m)
    ensures Cong(((d * i) * (d * i)) * x, x, m)
  {
    hide Cong;
    CongMul(d * i, 1, d * i, 1, m);
    CongRefl(x, m);
    CongMul((d * i) * (d * i), 1, x, x, m);
  }

  lemma ProductTerms(d: int, r: int, u: int, t: int, h: int)
    ensures ((d * d) * r) * ((d * d) * u) == (d * d) * ((u * r) * (d * d))
    ensures (t - 2 * h) * (t + 2 * h) == t * t - 4 * (h * h)
  {
    var e := d * d;
    assert (e * r) * (e * u) == e * ((u * r) * e);
  }

  /** Sum and difference of two points: the product of their x coordinates. */
  lemma SumAndDifference(d: int, i: int, r: int, u: int, t: int, h: int, right: int, h2: int, m: nat)
    requires m > 0 && Cong((d * d) * r, t - 2 * h, m) && Cong((d * d) * u, t + 2 * h, m) && Cong(h * h, right, m)
    requires t * t - 4 * right == (d * d) * h2 && Cong(d * i, 1, m)
    ensures Cong((u * r) * (d * d), h2, m)
  {
    hide Cong;
    ProductTerms(d, r, u, t, h);
    CongMul((d * d) * r, t - 2 * h, (d * d) * u, t + 2 * h, m);
    CongScale(4, h * h, right, m);
    CongRefl(t * t, m);
    CongSub(t * t, t * t, 4 * (h * h), 4 * right, m);
    CongChain((d * d) * ((u * r) * (d * d)), t * t - 4 * (h * h), (d * d) * h2, m);
    CongCancel(d, i, (u * r) * (d * d), h2, m);
  }

  lemma DistanceSquare(x: int, y: int)
    ensures (y - x) * (y - x) == (x + y) * (x + y) - 4 * (x * y)
  {}

  /** What differential addition is given: the chords through p and q, and through -p and q. */
  ghost predicate Meet(p: Point, q: Point, r: int, u: int, a: int, m: nat)
    requires m > 0
  {
    && OnCurve(p, a, m) && OnCurve(q, a, m) && Apart(p, q, m)
    && Chord(p, q, 1, r, a, m) && Chord(p, q, -1, u, a, m)
  }

  lemma ChordsMeet(p: Point, q: Point, r: int, u: int, a: int, m: nat)
    requires m > 0 && Meet(p, q, r, u, a, m)
    ensures
      var d, h := q.x - p.x, p.x * q.x - 1;
      Cong((u * r) * (d * d), h * h, m)
  {
    var s :| ChordBy(p, q, 1, r, s, a, m);
    var s2 :| ChordBy(p, q, -1, u, s2, a, m);
    var i :| ApartBy(p, q, i, m);
    var x, y := p.x, q.x;
    var h := p.y * q.y;
    ChordX(p, q, 1, r, s, a, m);
    ChordX(p, q, -1, u, s2, a, m);
    CongMul(p.y * p.y, Right(x, a), q.y * q.y, Right(y, a), m);
    SquareOfProduct(p.y, q.y);
    RightProduct(x, y, a);
    ChordIdentity(x + y, x * y, a);
    DistanceSquare(x, y);
    SumAndDifference(y - x, i, r, u, Numerator(x + y, x * y, a), h, Right(x, a) * Right(y, a), (x * y - 1) * (x * y - 1), m);
    hide *;
  }

  // ---------------------------------------------------------------- projective coordinates

  function DblX(x: int, z: int): int {
    ((x + z) * (x + z)) * ((x - z) * (x - z))
  }

  function DblZ(x: int, z: int, k: int): int {
    var e := (x + z) * (x + z) - (x - z) * (x - z);
    e * ((x + z) * (x + z) + k * e)
  }

  lemma DblCong(x: int, y: int, z: int, k: int, m: nat)
    requires m > 0 && Cong(x, y, m)
    ensures Cong(DblX(x, z), DblX(y, z), m) && Cong(DblZ(x, z, k), DblZ(y, z, k), m)
  {
    hide Cong;
    CongRefl(z, m);
    CongAdd(x, y, z, z, m);
    CongSub(x, y, z, z, m);
    CongMul(x + z, y + z, x + z, y + z, m);
    CongMul(x - z, y - z, x - z, y - z, m);
    var a, b, c, d := (x + z) * (x + z), (x - z) * (x - z), (y + z) * (y + z), (y - z) * (y - z);
    CongMul(a, c, b, d, m);
    CongSub(a, c, b, d, m);
    CongScale(k, a - b, c - d, m);
    CongAdd(a, c, k * (a - b), k * (c - d), m);
    CongMul(a - b, c - d, a + k * (a - b), c + k * (c - d), m);
  }

  lemma DblXExact(x: int, z: int)
    ensures DblX(x * z, z) == ((z * z) * (z * z)) * ((x * x - 1) * (x * x - 1))
  {
    var k := z * z;
    assert x * z + z == (x + 1) * z && x * z - z == (x - 1) * z;
    SquareOfProduct(x + 1, z);
    SquareOfProduct(x - 1, z);
    var a, b := (x + 1) * (x + 1), (x - 1) * (x - 1);
    assert (a * k) * (b * k) == (k * k) * (a * b);
    assert a * b == (x * x - 1) * (x * x - 1) by {
      assert (x + 1) * (x - 1) == x * x - 1;
      SquareOfProduct(x + 1, x - 1);
    }
  }

  lemma DblZExact(x: int, z: int, k: int)
    ensures DblZ(x * z, z, k) == ((z * z) * (z * z)) * (4 * Right(x, 4 * k + 2))
  {
    var w, u, a := z * z, x * z, 4 * k + 2;
    assert (u + z) * (u + z) == u * u + 2 * (u * z) + w && (u - z) * (u - z) == u * u - 2 * (u * z) + w;
    assert u * z == x * w && u * u == (x * x) * w by { SquareOfProduct(x, z); }
    var e := 4 * (x * w);
    var f := x * x + a * x + 1;
    assert (x * x) * w + 2 * (x * w) + w + k * e == f * w by { CoefficientIs(x, w, k); }
    assert e * (f * w) == (w * w) * (4 * (x * f)) by { Quadruple(x, w, f); }
    RightFactor(x, a);
  }

  lemma CoefficientIs(x: int, w: int, k: int)
    ensures (x * x) * w + 2 * (x * w) + w + k * (4 * (x * w)) == (x * x + (4 * k + 2) * x + 1) * w
  {
    assert k * (4 * (x * w)) == 4 * ((k * x) * w);
    assert (4 * k + 2) * x == 4 * (k * x) + 2 * x;
    var y := k * x;
    assert (x * x + (4 * y + 2 * x) + 1) * w == (x * x) * w + 4 * (y * w) + 2 * (x * w) + w;
  }

  lemma Quadruple(x: int, w: int, f: int)
    ensures (4 * (x * w)) * (f * w) == (w * w) * (4 * (x * f))
  {
    assert (x * w) * (f * w) == (w * w) * (x * f);
  }

  lemma Regroup(r: int, w: int, f: int)
    ensures r * (w * f) == w * (f * r)
  {}

  /** Doubling and differential addition modulo m. */
  function DoubledMod(v: Xz, k: int, m: nat): Xz
    requires m > 0
  {
    Xz(DblX(v.x, v.z) % m, DblZ(v.x, v.z, k) % m)
  }

  function DiffAddMod(u: int, v: Xz, w: Xz, m: nat): Xz
    requires m > 0
  {
    var da, cb := (w.x - w.z) * (v.x + v.z), (w.x + w.z) * (v.x - v.z);
    Xz((da + cb) * (da + cb) % m, u * ((da - cb) * (da - cb)) % m)
  }

  /** The common factor w of a projective pair does not matter. */
  lemma ScaledStands(x: int, z: int, w: int, f: int, h2: int, r: int, m: nat)
    requires m > 0 && Cong(x, w * h2, m) && Cong(z, w * f, m) && Cong(f * r, h2, m)
    ensures Cong(x, r * z, m)
  {
    hide Cong;
    CongScale(r, z, w * f, m);
    Regroup(r, w, f);
    CongScale(w, f * r, h2, m);
    CongChain(r * z, w * (f * r), w * h2, m);
    CongFlip(r * z, w * h2, m);
    CongChain(x, w * h2, r * z, m);
  }

  lemma ReducedStands(x: int, z: int, r: int, m: nat)
    requires m > 0 && Cong(x, r * z, m)
    ensures Stands(Xz(x % m, z % m), r, m)
  {
    hide Cong;
    CongMod(x, m);
    CongMod(z, m);
    CongScale(r, z % m, z, m);
    CongFlip(r * (z % m), r * z, m);
    CongChain(x % m, x, r * z, m);
    CongChain(x % m, r * z, r * (z % m), m);
  }

  /** The doubling formula is the tangent. */
  lemma DoubledStands(p: Point, v: Xz, r: int, k: int, m: nat)
    requires m > 0 && OnCurve(p, 4 * k + 2, m) && Tangent(p, r, 4 * k + 2, m) && Stands(v, p.x, m)
    ensures Stands(DoubledMod(v, k, m), r, m)
  {
    var s :| TangentBy(p, r, s, 4 * k + 2, m);
    DoubleX(p, r, s, 4 * k + 2, m);
    var x, z := p.x, v.z;
    var w, f, h := (z * z) * (z * z), 4 * Right(x, 4 * k + 2), x * x - 1;
    DblCong(v.x, x * z, z, k, m);
    DblXExact(x, z);
    DblZExact(x, z, k);
    ScaledStands(DblX(v.x, z), DblZ(v.x, z, k), w, f, h * h, r, m);
    ReducedStands(DblX(v.x, z), DblZ(v.x, z, k), r, m);
    hide DblX, DblZ, Right, Cong, Stands;
  }

  lemma CrossCong(x: int, x2: int, z: int, y: int, y2: int, w: int, m: nat)
    requires m > 0 && Cong(x, x2, m) && Cong(y, y2, m)
    ensures Cong((y - w) * (x + z), (y2 - w) * (x2 + z), m) && Cong((y + w) * (x - z), (y2 + w) * (x2 - z), m)
  {
    hide Cong;
    CongRefl(z, m);
    CongRefl(w, m);
    CongAdd(x, x2, z, z, m);
    CongSub(x, x2, z, z, m);
    CongAdd(y, y2, w, w, m);
    CongSub(y, y2, w, w, m);
    CongMul(y - w, y2 - w, x + z, x2 + z, m);
    CongMul(y + w, y2 + w, x - z, x2 - z, m);
  }

  lemma CrossExact(x: int, z: int, y: int, w: int)
    ensures (y * w - w) * (x * z + z) == (w * z) * ((y - 1) * (x + 1))
    ensures (y * w + w) * (x * z - z) == (w * z) * ((y + 1) * (x - 1))
    ensures (y - 1) * (x + 1) + (y + 1) * (x - 1) == 2 * (x * y - 1)
    ensures (y - 1) * (x + 1) - (y + 1) * (x - 1) == 2 * (y - x)
  {
    assert y * w - w == (y - 1) * w && y * w + w == (y + 1) * w;
    assert x * z + z == (x + 1) * z && x * z - z == (x - 1) * z;
    FourFactors(y - 1, w, x + 1, z);
    FourFactors(y + 1, w, x - 1, z);
  }

  lemma FourFactors(a: int, b: int, c: int, d: int)
    ensures (a * b) * (c * d) == (b * d) * (a * c)
  {}

  lemma TwiceSquared(k: int, a: int, b: int, h: int)
    requires a + b == 2 * h
    ensures (k * a + k * b) * (k * a + k * b) == (4 * (k * k)) * (h * h)
  {
    assert k * a + k * b == 2 * (k * h) by {
      assert k * a + k * b == k * (a + b);
    }
    SquareOfProduct(k, h);
  }

  lemma SumsSquared(da: int, cb: int, k: int, a: int, b: int, h: int, d: int, m: nat)
    requires m > 0 && Cong(da, k * a, m) && Cong(cb, k * b, m) && a + b == 2 * h && a - b == 2 * d
    ensures Cong((da + cb) * (da + cb), (4 * (k * k)) * (h * h), m)
    ensures Cong((da - cb) * (da - cb), (4 * (k * k)) * (d * d), m)
  {
    hide Cong;
    CongAdd(da, k * a, cb, k * b, m);
    CongSub(da, k * a, cb, k * b, m);
    CongMul(da + cb, k * a + k * b, da + cb, k * a + k * b, m);
    CongMul(da - cb, k * a - k * b, da - cb, k * a - k * b, m);
    TwiceSquared(k, a, b, h);
    assert k * (-b) == -(k * b);
    TwiceSquared(k, a, -b, d);
  }

  lemma AddSteps(u: int, x: int, y: int, w: int, h2: int, d2: int, r: int, m: nat)
    requires m > 0 && Cong(x, w * h2, m) && Cong(y, w * d2, m) && Cong((u * r) * d2, h2, m)
    ensures Cong(x, r * (u * y), m)
  {
    hide Cong;
    CongScale(u, y, w * d2, m);
    Regroup(u, w, d2);
    assert (d2 * u) * r == (u * r) * d2;
    ScaledStands(x, u * y, w, d2 * u, h2, r, m);
  }

  /** The differential addition formula is the chord, given the x coordinate of the difference. */
  lemma DiffAddStands(p: Point, q: Point, v: Xz, w: Xz, u: int, r: int, a: int, m: nat)
    requires m > 0 && Meet(p, q, r, u, a, m) && Stands(v, p.x, m) && Stands(w, q.x, m)
    ensures Stands(DiffAddMod(u, v, w, m), r, m)
  {
    ChordsMeet(p, q, r, u, a, m);
    var x, y, k := p.x, q.x, w.z * v.z;
    var h, d := x * y - 1, y - x;
    var da, cb := (w.x - w.z) * (v.x + v.z), (w.x + w.z) * (v.x - v.z);
    var b, c := (y - 1) * (x + 1), (y + 1) * (x - 1);
    CrossCong(v.x, x * v.z, v.z, w.x, y * w.z, w.z, m);
    CrossExact(x, v.z, y, w.z);
    SumsSquared(da, cb, k, b, c, h, d, m);
    AddSteps(u, (da + cb) * (da + cb), (da - cb) * (da - cb), 4 * (k * k), h * h, d * d, r, m);
    ReducedStands((da + cb) * (da + cb), u * ((da - cb) * (da - cb)), r, m);
    hide Cong, Meet;
  }

  // ---------------------------------------------------------------- the ladder

  /** Ladder of X25519Spec for any coefficient and modulus. */
  function LadderMod(u: int, n: nat, k: int, m: nat): (Xz, Xz)
    requires m > 0
  {
    if n == 0 then (Xz(1, 0), Xz(u, 1))
    else
      var (v, w) := LadderMod(u, n / 2, k, m);
      if n % 2 == 0 then (DoubledMod(v, k, m), DiffAddMod(u, v, w, m)) else (DiffAddMod(u, v, w, m), DoubledMod(w, k, m))
  }

  /** f(n) and f(n + 1) are neighbours in a row of multiples that doubling and adding lead on from. */
  ghost predicate Leads(f: nat -> Point, n: nat, a: int, m: nat)
    requires m > 0
  {
    && Tangent(f(n), f(2 * n).x, a, m) && Tangent(f(n + 1), f(2 * n + 2).x, a, m)
    && Meet(f(n), f(n + 1), f(2 * n + 1).x, f(1).x, a, m)
  }

  /** Every step of the ladder down from n is a tangent or a chord of the multiples f. */
  ghost predicate Multiples(f: nat -> Point, n: nat, a: int, m: nat)
    requires m > 0
  {
    if n <= 1 then OnCurve(f(1), a, m) && Tangent(f(1), f(2).x, a, m)
    else Leads(f, n / 2, a, m) && Multiples(f, n / 2, a, m)
  }

  /** The ladder carries the x coordinates of the multiples n and n + 1. */
  lemma {:induction false} LadderStands(f: nat -> Point, n: nat, k: int, m: nat)
    requires m > 0 && n >= 1 && Multiples(f, n, 4 * k + 2, m)
    ensures
      var s := LadderMod(f(1).x, n, k, m);
      Stands(s.0, f(n).x, m) && Stands(s.1, f(n + 1).x, m)
  {
    hide Stands, Leads, Tangent, OnCurve, DoubledMod, DiffAddMod, LadderMod;
    var u := f(1).x;
    if n == 1 {
      FirstStep(f(1), m);
      DoubledStands(f(1), Xz(u, 1), f(2).x, k, m);
      LadderNext(u, 0, 1, k, m);
      LadderZero(u, k, m);
    } else {
      LadderStands(f, n / 2, k, m);
      StepStands(f, n / 2, LadderMod(u, n / 2, k, m), k, m);
      LadderNext(u, n / 2, n % 2, k, m);
    }
  }

  lemma StepStands(f: nat -> Point, n: nat, s: (Xz, Xz), k: int, m: nat)
    requires m > 0 && Leads(f, n, 4 * k + 2, m) && Stands(s.0, f(n).x, m) && Stands(s.1, f(n + 1).x, m)
    ensures Stands(DoubledMod(s.0, k, m), f(2 * n).x, m) && Stands(DoubledMod(s.1, k, m), f(2 * n + 2).x, m)
    ensures Stands(DiffAddMod(f(1).x, s.0, s.1, m), f(2 * n + 1).x, m)
  {
    DiffAddStands(f(n), f(n + 1), s.0, s.1, f(1).x, f(2 * n + 1).x, 4 * k + 2, m);
    DoubledStands(f(n), s.0, f(2 * n).x, k, m);
    DoubledStands(f(n + 1), s.1, f(2 * n + 2).x, k, m);
    hide Stands, Tangent, OnCurve, Chord, Apart, DoubledMod, DiffAddMod;
  }

  lemma LadderNext(u: int, n: nat, bit: nat, k: int, m: nat)
    requires m > 0 && bit <= 1 && 2 * n + bit > 0
    ensures
      var s := LadderMod(u, n, k, m);
      LadderMod(u, 2 * n + bit, k, m)
      == if bit == 0 then (DoubledMod(s.0, k, m), DiffAddMod(u, s.0, s.1, m)) else (DiffAddMod(u, s.0, s.1, m), DoubledMod(s.1, k, m))
  {
    hide DoubledMod, DiffAddMod;
    var i := 2 * n + bit;
    assert i / 2 == n && i % 2 == bit;
  }

  lemma LadderZero(u: int, k: int, m: nat)
    requires m > 0
    ensures LadderMod(u, 0, k, m) == (Xz(1, 0), Xz(u, 1))
  {}

  lemma FirstStep(p: Point, m: nat)
    requires m > 0
    ensures Stands(Xz(p.x, 1), p.x, m) && Stands(DiffAddMod(p.x, Xz(1, 0), Xz(p.x, 1), m), p.x, m)
  {
    var u := p.x;
    assert (u - 1) * (1 + 0) == u - 1 && (u + 1) * (1 - 0) == u + 1;
    assert (u - 1 + (u + 1)) * (u - 1 + (u + 1)) == 4 * (u * u);
    assert u * ((u - 1 - (u + 1)) * (u - 1 - (u + 1))) == 4 * u;
    CongRefl(4 * (u * u), m);
    assert u * (4 * u) == 4 * (u * u);
    ReducedStands(4 * (u * u), 4 * u, u, m);
    CongRefl(u, m);
    hide Cong;
  }

  /** The ladder of kernel/x25519.c is the one with k = 121665 and the prime 2^255 - 19. */
  lemma {:induction false} LadderIs(u: int, n: nat)
    ensures Ladder(u, n) == LadderMod(u, n, 121665, P)
  {
    if n > 0 {
      LadderIs(u, n / 2);
      var s := Ladder(u, n / 2);
      DoubledIs(s.0);
      DoubledIs(s.1);
      DiffAddIs(u, s.0, s.1);
      hide Doubled, DiffAdd, DoubledMod, DiffAddMod;
    }
  }

  lemma DoubledIs(v: Xz)
    ensures Doubled(v) == DoubledMod(v, 121665, P)
  {}

  lemma DiffAddIs(u: int, v: Xz, w: Xz)
    ensures DiffAdd(u, v, w) == DiffAddMod(u, v, w, P)
  {}

  lemma InverseCancels(x: int, a: int, z: int, e: int, m: nat)
    requires m > 0 && Cong(x, a * z, m) && Cong(z * e, 1, m)
    ensures x * e % m == a % m
  {
    CongRefl(e, m);
    CongMul(x, a * z, e, e, m);
    CongScale(a, z * e, 1, m);
    MulAssoc(a, z, e);
    CongChain(x * e, (a * z) * e, a, m);
  }

  /** X25519 is the x coordinate of the clamped multiple of the point, whenever the ladder's steps
      are tangents and chords and its last z has the inverse that its power p - 2 is to be. */
  lemma ScalarMultIsMultiple(f: nat -> Point, k: nat, u: nat)
    requires Multiples(f, Clamp(k), 486662, P) && f(1).x == u % (2 * TOP) % P
    requires
      var z := Ladder(f(1).x, Clamp(k)).0.z;
      Cong(z * Pow(z, P - 2), 1, P)
    ensures ScalarMult(k, u) == f(Clamp(k)).x % P
  {
    LadderIs(f(1).x, Clamp(k));
    LadderStands(f, Clamp(k), 121665, P);
    var v := Ladder(f(1).x, Clamp(k)).0;
    InverseCancels(v.x, f(Clamp(k)).x, v.z, Pow(v.z, P - 2), P);
    hide *;
  }
}
