/** The polynomial identities behind Jacobian doubling and addition on y^2 = x^3 - 3x + b,
    over the integers.  A point (x, y, z) is on the curve when y^2 equals
    x^3 - 3 x z^4 + b z^6; below, d stands for z^2. */
module EcAlgebra {

  function Cubic(x: int, d: int, b: int): int {
    x * (x * x) - 3 * (x * (d * d)) + b * (d * (d * d))
  }

  // ---------------------------------------------------------------- doubling

  lemma DifferenceOfSquares(x: int, d: int)
    ensures (x - d) * (x + d) == x * x - d * d
  {}

  lemma SquareOfY(a: int, u: int, g2: int)
    ensures (a * (12 * u - a * a) - 8 * g2) * (a * (12 * u - a * a) - 8 * g2)
         == (a * a) * ((12 * u - a * a) * (12 * u - a * a)) - 16 * (a * (g2 * (12 * u - a * a))) + 64 * (g2 * g2)
  {}

  lemma CubesCancel(c: int, u: int)
    ensures c * ((12 * u - c) * (12 * u - c)) - (c - 8 * u) * ((c - 8 * u) * (c - 8 * u))
         == 512 * (u * (u * u)) - 48 * (c * (u * u))
  {}

  lemma ProductPowers(x: int, g: int)
    ensures (x * g) * (x * g) == (x * x) * (g * g)
    ensures (x * g) * ((x * g) * (x * g)) == (x * (x * x)) * (g * (g * g))
  {}

  lemma QuadruplePowers(g: int, d: int)
    ensures (4 * (g * d)) * (4 * (g * d)) == 16 * ((g * g) * (d * d))
    ensures (4 * (g * d)) * ((4 * (g * d)) * (4 * (g * d))) == 64 * ((g * (g * g)) * (d * (d * d)))
  {}

  lemma DoubleY(a: int, u: int, g2: int, x3: int, y3: int)
    requires x3 == a * a - 8 * u && y3 == a * (4 * u - x3) - 8 * g2
    ensures y3 * y3 == (a * a) * ((12 * u - a * a) * (12 * u - a * a)) - 192 * (a * (g2 * u))
                       + 16 * (a * (g2 * (a * a))) + 64 * (g2 * g2)
  {
    var w := 12 * u - a * a;
    assert 4 * u - x3 == w;
    SquareOfY(a, u, g2);
    assert g2 * w == 12 * (g2 * u) - g2 * (a * a);
    assert a * (g2 * w) == 12 * (a * (g2 * u)) - a * (g2 * (a * a));
  }

  lemma DoubleX(c: int, u: int, x3: int, k: int, q: int)
    requires x3 == c - 8 * u && q == 16 * k
    ensures c * ((12 * u - c) * (12 * u - c)) - x3 * (x3 * x3) == 512 * (u * (u * u)) - 48 * (c * (u * u))
    ensures 3 * (x3 * q) == 48 * (c * k) - 384 * (u * k)
  {
    CubesCancel(c, u);
  }

  lemma DoubleB(b: int, d3: int, g: int, d: int)
    requires d3 == 4 * (g * d)
    ensures d3 * d3 == 16 * ((g * g) * (d * d))
    ensures b * (d3 * (d3 * d3)) == 64 * (b * ((g * (g * g)) * (d * (d * d))))
  {
    QuadruplePowers(g, d);
  }

  lemma SlopeCancels(a: int, c: int, g2: int, x2: int, d2: int)
    requires a == 3 * (x2 - d2)
    ensures 16 * (a * (g2 * c)) - 48 * (c * (x2 * g2)) + 48 * (c * (g2 * d2)) == 0
  {
    var t := g2 * c;
    assert a * t == 3 * ((x2 - d2) * t);
    assert (x2 - d2) * t == x2 * t - d2 * t;
    assert x2 * t == c * (x2 * g2) && d2 * t == c * (g2 * d2);
  }

  lemma SlopeTimesX(a: int, x: int, g: int, d2: int)
    requires a == 3 * (x * x - d2)
    ensures a * ((g * g) * (x * g)) == 3 * ((x * (x * x)) * (g * (g * g))) - 3 * ((x * d2) * (g * (g * g)))
  {
    var t := x * (g * (g * g));
    assert (g * g) * (x * g) == t;
    assert a * t == 3 * ((x * x) * t - d2 * t);
    assert (x * x) * t == (x * (x * x)) * (g * (g * g));
    assert d2 * t == (x * d2) * (g * (g * g));
  }

  lemma ResidualOfDouble(x: int, g: int, d: int, b: int)
    ensures (g * (g * g)) * (g - Cubic(x, d, b))
         == (g * g) * (g * g) - (x * (x * x)) * (g * (g * g)) + 3 * ((x * (d * d)) * (g * (g * g)))
            - b * ((g * (g * g)) * (d * (d * d)))
    ensures (x * g) * ((g * g) * (d * d)) == (x * (d * d)) * (g * (g * g))
  {
    var g3 := g * (g * g);
    assert g3 * g == (g * g) * (g * g);
    var p, q, r := x * (x * x), x * (d * d), d * (d * d);
    assert g3 * (g - (p - 3 * q + b * r)) == g3 * g - g3 * p + 3 * (g3 * q) - g3 * (b * r);
    assert g3 * (b * r) == b * (g3 * r);
  }

  /** Adding up the pieces, each a number of its own. */
  lemma DoubleSum(yy: int, aw: int, agu: int, aga: int, g4: int, xxx: int, u3: int, au2: int, x3q: int,
                  ag: int, ug: int, bd: int, bg: int, xg: int, xdg: int, z: int)
    requires yy == aw - 192 * agu + 16 * aga + 64 * g4
    requires aw - xxx == 512 * u3 - 48 * au2
    requires 3 * x3q == 48 * ag - 384 * ug
    requires bd == 64 * bg
    requires u3 == xg && ug == xdg && agu == 3 * xg - 3 * xdg
    requires 16 * aga - 48 * au2 + 48 * ag == 0
    requires z == g4 - xg + 3 * xdg - bg
    ensures yy - (xxx - 3 * x3q + bd) == 64 * z
  {}

  /** The curve equation of a doubled point is 64 g^3 times that of the point, where g = y^2. */
  lemma DoubleIdentity(x: int, g: int, d: int, b: int, a: int, x3: int, y3: int, d3: int)
    requires a == 3 * ((x - d) * (x + d)) && x3 == a * a - 8 * (x * g)
    requires y3 == a * (4 * (x * g) - x3) - 8 * (g * g) && d3 == 4 * (g * d)
    ensures y3 * y3 - Cubic(x3, d3, b) == 64 * ((g * (g * g)) * (g - Cubic(x, d, b)))
  {
    var c, u, g2, g3, k := a * a, x * g, g * g, g * (g * g), (g * g) * (d * d);
    DoubleY(a, u, g2, x3, y3);
    DoubleB(b, d3, g, d);
    DoubleX(c, u, x3, k, d3 * d3);
    ProductPowers(x, g);
    DifferenceOfSquares(x, d);
    SlopeCancels(a, c, g2, x * x, d * d);
    SlopeTimesX(a, x, g, d * d);
    ResidualOfDouble(x, g, d, b);
    DoubleSum(y3 * y3, c * ((12 * u - c) * (12 * u - c)), a * (g2 * u), a * (g2 * c), g2 * g2,
              x3 * (x3 * x3), u * (u * u), c * (u * u), x3 * (d3 * d3), c * k, u * k,
              b * (d3 * (d3 * d3)), b * (g3 * (d * (d * d))), (x * (x * x)) * g3, (x * (d * d)) * g3,
              g3 * (g - Cubic(x, d, b)));
  }

  // ---------------------------------------------------------------- addition

  lemma CubeOfDifference(q: int, e: int)
    ensures (q - e) * ((q - e) * (q - e)) == q * (q * q) - 3 * ((q * q) * e) + 3 * (q * (e * e)) - e * (e * e)
  {}

  lemma SquareOfDifference(r: int, e: int, s: int, h3: int)
    ensures (r * e - s * h3) * (r * e - s * h3)
         == (r * r) * (e * e) - 2 * ((r * s) * (e * h3)) + (s * s) * (h3 * h3)
  {}

  lemma SlopeSquare(r2: int, q: int, h3: int, e: int)
    requires r2 == 3 * q + h3 - e
    ensures r2 * (e * e) == 3 * (q * (e * e)) + h3 * (e * e) - e * (e * e)
    ensures h3 * (e * r2) == 3 * (q * (h3 * e)) + (h3 * h3) * e - h3 * (e * e)
  {}

  lemma ScaledX(x3: int, q: int, e: int, w: int, h2: int)
    requires x3 == q - e
    ensures x3 * ((w * h2) * (w * h2)) == q * ((w * w) * (h2 * h2)) - e * ((w * w) * (h2 * h2))
    ensures (w * h2) * ((w * h2) * (w * h2)) == (w * (w * w)) * (h2 * (h2 * h2))
  {
    ProductPowers(w, h2);
  }

  lemma FirstPoint(u: int, w: int, b: int, h6: int, s2: int)
    ensures h6 * (s2 - Cubic(u, w, b))
         == s2 * h6 - (u * (u * u)) * h6 + 3 * ((u * (w * w)) * h6) - b * ((w * (w * w)) * h6)
  {
    var c, e, f := u * (u * u), u * (w * w), w * (w * w);
    assert h6 * (s2 - (c - 3 * e + b * f)) == h6 * s2 - h6 * c + 3 * (h6 * e) - h6 * (b * f);
    assert h6 * (b * f) == b * (f * h6);
  }

  /** The chord's secant polynomial at the two abscissas u and u + h. */
  function Secant(u: int, h: int, w: int): int {
    3 * (u * u) + 3 * (u * h) + h * h - 3 * (w * w)
  }

  lemma SecantTerms(y: int, u: int, h: int, w: int)
    ensures y * Secant(u, h, w) == 3 * (y * (u * u)) + 3 * (y * (u * h)) + y * (h * h) - 3 * (y * (w * w))
  {
    var a, b, c, d := u * u, u * h, h * h, w * w;
    assert y * (3 * a + 3 * b + c - 3 * d) == 3 * (y * a) + 3 * (y * b) + y * c - 3 * (y * d);
  }

  lemma SecantMonomials(e: int, h: int, h2: int, h3: int, u: int, w: int, q: int, t: int, y: int)
    requires h2 == h * h && h3 == h * h2 && q == u * h2 && t == h3 * e && y == t * h
    ensures y * (u * u) == (q * q) * e
    ensures y * (u * h) == q * t
    ensures y * (h * h) == (h3 * h3) * e
    ensures y * (w * w) == e * ((w * w) * (h2 * h2))
  {
    ProductPowers(u, h2);
    assert y == (h2 * h2) * e;
    assert (t * h) * (u * h) == t * (u * (h * h));
    assert (t * h) * (h * h) == t * (h * (h * h));
  }

  lemma SecondPoint(e: int, h: int, h2: int, h3: int, u: int, w: int, q: int)
    requires h2 == h * h && h3 == h * h2 && q == u * h2
    ensures (h3 * e) * (h * Secant(u, h, w))
         == 3 * ((q * q) * e) + 3 * (q * (h3 * e)) + (h3 * h3) * e - 3 * (e * ((w * w) * (h2 * h2)))
  {
    var t := h3 * e;
    var y := t * h;
    SecantMonomials(e, h, h2, h3, u, w, q, t, y);
    SecantTerms(y, u, h, w);
    Regroup(t, h, Secant(u, h, w));
  }

  lemma Regroup(t: int, h: int, c: int)
    ensures t * (h * c) == (t * h) * c
  {}

  lemma ChordTerms(e: int, h: int, h3: int, r: int, s: int, r2: int, c: int)
    ensures h3 * (e * (2 * (s * r) + r2 - h * c)) == 2 * ((r * s) * (e * h3)) + h3 * (e * r2) - (h3 * e) * (h * c)
  {
    var t := h3 * e;
    assert h3 * (e * (2 * (s * r) + r2 - h * c)) == t * (2 * (s * r) + r2 - h * c);
    assert t * (2 * (s * r) + r2 - h * c) == 2 * (t * (s * r)) + t * r2 - t * (h * c);
    assert t * (s * r) == (r * s) * (e * h3);
    assert t * r2 == h3 * (e * r2);
  }

  lemma AddSum(yy: int, r2ee: int, rseh: int, s2h6: int, xxx: int, q3: int, qqe: int, qee: int, eee: int,
               xw: int, qw: int, ew: int, bw: int, hee: int, qhe: int, h6e: int, her2: int,
               f: int, g: int, sec: int, uh6: int, uwh6: int)
    requires yy == r2ee - 2 * rseh + s2h6
    requires r2ee == 3 * qee + hee - eee && her2 == 3 * qhe + h6e - hee
    requires xxx == q3 - 3 * qqe + 3 * qee - eee
    requires xw == qw - ew && q3 == uh6 && qw == uwh6
    requires f == s2h6 - uh6 + 3 * uwh6 - bw
    requires g == 2 * rseh + her2 - sec && sec == 3 * qqe + 3 * qhe + h6e - 3 * ew
    ensures yy - (xxx - 3 * xw + bw) == f - g
  {}

  lemma SixthPower(h: int, h2: int, h3: int)
    requires h2 == h * h && h3 == h * h2
    ensures h2 * (h2 * h2) == h3 * h3
  {}

  lemma ChordIdentity(u: int, h: int, w: int, b: int, s: int, r: int, h2: int, h3: int, x3: int, y3: int)
    requires h2 == h * h && h3 == h * h2
    requires x3 == r * r - h3 - 2 * (u * h2) && y3 == r * (u * h2 - x3) - s * h3
    ensures y3 * y3 - Cubic(x3, w * h2, b)
         == (h3 * h3) * (s * s - Cubic(u, w, b))
            - h3 * ((u * h2 - x3) * (2 * (s * r) + r * r - h * Secant(u, h, w)))
  {
    var q := u * h2;
    var e := q - x3;
    var r2, h6 := r * r, h3 * h3;
    SquareOfDifference(r, e, s, h3);
    SlopeSquare(r2, q, h3, e);
    CubeOfDifference(q, e);
    ScaledX(x3, q, e, w, h2);
    ProductPowers(u, h2);
    SixthPower(h, h2, h3);
    FirstPoint(u, w, b, h6, s * s);
    SecondPoint(e, h, h2, h3, u, w, q);
    ChordTerms(e, h, h3, r, s, r2, Secant(u, h, w));
    MixedTerm(u, h2, w, h3);
    AddSum(y3 * y3, r2 * (e * e), (r * s) * (e * h3), (s * s) * h6, x3 * (x3 * x3), q * (q * q), (q * q) * e,
           q * (e * e), e * (e * e), x3 * ((w * h2) * (w * h2)), q * ((w * w) * (h2 * h2)),
           e * ((w * w) * (h2 * h2)), b * ((w * (w * w)) * h6), h3 * (e * e), q * (h3 * e), h6 * e,
           h3 * (e * r2), h6 * (s * s - Cubic(u, w, b)),
           h3 * (e * (2 * (s * r) + r2 - h * Secant(u, h, w))), (h3 * e) * (h * Secant(u, h, w)),
           (u * (u * u)) * h6, (u * (w * w)) * h6);
  }

  lemma MixedTerm(u: int, h2: int, w: int, h3: int)
    requires h2 * (h2 * h2) == h3 * h3
    ensures (u * h2) * ((w * w) * (h2 * h2)) == (u * (w * w)) * (h3 * h3)
  {
    var v := w * w;
    assert (u * h2) * (v * (h2 * h2)) == (u * v) * (h2 * (h2 * h2));
  }

  /** The secant factor is the difference of the two points' curve equations. */
  lemma SecantIsDifference(u: int, h: int, w: int, b: int, s: int, r: int)
    ensures 2 * (s * r) + r * r - h * Secant(u, h, w)
         == ((s + r) * (s + r) - Cubic(u + h, w, b)) - (s * s - Cubic(u, w, b))
  {
    assert (s + r) * (s + r) == s * s + 2 * (s * r) + r * r;
    CubeOfSum(u, h);
    assert (u + h) * (w * w) == u * (w * w) + h * (w * w);
    SecantTerms(h, u, h, w);
    assert h * (u * u) == (u * u) * h && h * (u * h) == u * (h * h);
  }

  lemma CubeOfSum(u: int, h: int)
    ensures (u + h) * ((u + h) * (u + h)) == u * (u * u) + 3 * ((u * u) * h) + 3 * (u * (h * h)) + h * (h * h)
  {}

  /** The curve equation scales with the coordinates. */
  lemma ScaleSix(x: int, y: int, d: int, b: int, c: int)
    ensures (y * (c * (c * c))) * (y * (c * (c * c))) - Cubic(x * (c * c), d * (c * c), b)
         == ((c * (c * c)) * (c * (c * c))) * (y * y - Cubic(x, d, b))
  {
    var c2 := c * c;
    var c3 := c * c2;
    ScaleTerms(x, y, d, b, c2, c3) by {
      SixthPower(c, c2, c3);
    }
  }

  lemma ScaleTerms(x: int, y: int, d: int, b: int, c2: int, c3: int)
    requires c2 * (c2 * c2) == c3 * c3
    ensures (y * c3) * (y * c3) - Cubic(x * c2, d * c2, b) == (c3 * c3) * (y * y - Cubic(x, d, b))
  {
    var c6 := c3 * c3;
    ProductPowers(y, c3);
    ProductPowers(x, c2);
    ProductPowers(d, c2);
    MixedTerm(x, c2, d, c3);
    FirstPoint(x, d, b, c6, y * y);
  }
}
