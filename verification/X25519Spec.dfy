/** The Montgomery ladder of kernel/x25519.c against section 5 of RFC 7748. */
module X25519Spec {
  import opened Words
  import opened X25519Field

  /** A point of the curve by its projective x coordinate. */
  datatype Xz = Xz(x: int, z: int)

  function Doubled(p: Xz): Xz {
    var aa, bb := (p.x + p.z) * (p.x + p.z), (p.x - p.z) * (p.x - p.z);
    Xz(aa * bb % P, (aa - bb) * (aa + 121665 * (aa - bb)) % P)
  }

  /** p + q, given the x coordinate u of their difference. */
  function DiffAdd(u: int, p: Xz, q: Xz): Xz {
    var da, cb := (q.x - q.z) * (p.x + p.z), (q.x + q.z) * (p.x - p.z);
    Xz((da + cb) * (da + cb) % P, u * ((da - cb) * (da - cb)) % P)
  }

  lemma CrossSame(a: int, b: int, c: int, d: int)
    ensures a * b == b * a && c * d == d * c
    ensures (a * b - c * d) * (a * b - c * d) == (d * c - b * a) * (d * c - b * a)
  {}

  /** Which of the two points is called first does not matter: the swaps can be put off. */
  lemma DiffAddSymmetric(u: int, p: Xz, q: Xz)
    ensures DiffAdd(u, p, q) == DiffAdd(u, q, p)
  {
    CrossSame(q.x - q.z, p.x + p.z, q.x + q.z, p.x - p.z);
  }

  /** The multiples n and n + 1, one bit of n at a time from the top: the ladder that branches. */
  function Ladder(u: int, n: nat): (Xz, Xz) {
    if n == 0 then (Xz(1, 0), Xz(u, 1))
    else
      var (p, q) := Ladder(u, n / 2);
      if n % 2 == 0 then (Doubled(p), DiffAdd(u, p, q)) else (DiffAdd(u, p, q), Doubled(q))
  }

  /** One more bit of n is one more step. */
  lemma LadderNext(u: int, n: nat, bit: nat)
    requires bit <= 1 && 2 * n + bit > 0
    ensures
      var s := Ladder(u, n);
      Ladder(u, 2 * n + bit) == if bit == 0 then (Doubled(s.0), DiffAdd(u, s.0, s.1)) else (DiffAdd(u, s.0, s.1), Doubled(s.1))
  {
    hide Doubled, DiffAdd;
    var m := 2 * n + bit;
    assert m / 2 == n && m % 2 == bit;
  }

  /** decodeScalar25519: bits 3 to 253 of k below bit 254. */
  function Clamp(k: nat): (r: nat)
    ensures r % 8 == 0 && TOP <= r < 2 * TOP
  {
    TOP + 8 * (k / 8 % (TOP / 8))
  }

  const TOP := 0x40000000_00000000_00000000_00000000_00000000_00000000_00000000_00000000

  /** The function X25519 of section 5 on the two encoded integers. */
  function ScalarMult(k: nat, u: nat): int {
    var p := Ladder(u % (2 * TOP) % P, Clamp(k)).0;
    p.x * Pow(p.z, P - 2) % P
  }

  /** The prime is 2^255 - 19 and the top bit of a scalar is bit 254. */
  lemma PrimeIs()
    ensures P == Pow2(255) - 19 && TOP == Pow2(254)
  {
    hide Pow2;
    Pow2Wide();
    Pow2Values();
    Pow2Sum(64, 64, 128, 0x1_0000_0000_0000_0000, 0x1_0000_0000_0000_0000);
    Pow2Sum(64, 32, 96, 0x1_0000_0000_0000_0000, 0x1_0000_0000);
    Pow2Sum(96, 16, 112, 0x1_0000_0000_0000_0000_0000_0000, 0x1_0000);
    Pow2Sum(112, 8, 120, 0x1_0000_0000_0000_0000_0000_0000_0000, 0x100);
    Pow2Sum(120, 6, 126, 0x100_0000_0000_0000_0000_0000_0000_0000, 0x40);
    Pow2Sum(128, 126, 254, 0x1_0000_0000_0000_0000_0000_0000_0000_0000, 0x4000_0000_0000_0000_0000_0000_0000_0000);
    Pow2Sum(254, 1, 255, TOP, 2);
  }
}
