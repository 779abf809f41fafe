/** Machine words as bounded integers, the bitwise operators of C on them, and powers.

    Every module states C's integer width explicitly: a truncating cast or a wrapping add is
    a `%` by the width, a shift is a product or quotient by a power of two, and the bitwise
    operators below are defined bit by bit, so that the masks and carries of the source are
    proved, not assumed, to be the arithmetic they stand for. */
module Words {
  const M8 := 0x100
  const M16 := 0x1_0000
  const M32 := 0x1_0000_0000
  const M64 := 0x1_0000_0000_0000_0000
  const M128 := 0x1_0000_0000_0000_0000_0000_0000_0000_0000

  type u8 = x: int | 0 <= x < 0x100
  type u16 = x: int | 0 <= x < 0x1_0000
  type u32 = x: int | 0 <= x < 0x1_0000_0000
  type u64 = x: int | 0 <= x < 0x1_0000_0000_0000_0000
  type u128 = x: int | 0 <= x < 0x1_0000_0000_0000_0000_0000_0000_0000_0000

  // ---------------------------------------------------------------- powers

  function Pow(b: int, e: nat): int {
    if e == 0 then 1 else b * Pow(b, e - 1)
  }

  function Pow2(e: nat): (r: nat)
    ensures r > 0
  {
    if e == 0 then 1 else 2 * Pow2(e - 1)
  }

  lemma {:induction false} PowAdd(b: int, d: nat, e: nat)
    ensures Pow(b, d + e) == Pow(b, d) * Pow(b, e)
  {
    if d == 0 {
    } else {
      PowAdd(b, d - 1, e);
      MulAssoc(b, Pow(b, d - 1), Pow(b, e));
    }
  }

  lemma {:induction false} Pow2Add(d: nat, e: nat)
    ensures Pow2(d + e) == Pow2(d) * Pow2(e)
  {
    if d == 0 {
    } else {
      Pow2Add(d - 1, e);
      MulAssoc(2, Pow2(d - 1), Pow2(e));
    }
  }

  lemma {:induction false} PowPositive(b: int, e: nat)
    requires b > 0
    ensures Pow(b, e) > 0
  {
    if e == 0 {
    } else {
      PowPositive(b, e - 1);
      MulPositive(b, Pow(b, e - 1));
    }
  }

  lemma {:induction false} Pow2IsPow(e: nat)
    ensures Pow2(e) == Pow(2, e)
  {
    if e == 0 {
    } else {
      Pow2IsPow(e - 1);
    }
  }

  lemma Pow2Values()
    ensures Pow2(0) == 1 && Pow2(1) == 2 && Pow2(2) == 4 && Pow2(3) == 8 && Pow2(4) == 16
    ensures Pow2(5) == 32 && Pow2(6) == 64 && Pow2(7) == 128 && Pow2(8) == M8
  {}

  lemma Pow2Sum(d: nat, e: nat, s: nat, x: int, y: int)
    requires Pow2(d) == x && Pow2(e) == y && s == d + e
    ensures Pow2(s) == x * y
  {
    Pow2Add(d, e);
  }

  lemma Pow2Wide()
    ensures Pow2(16) == M16 && Pow2(32) == M32 && Pow2(64) == M64
  {
    Pow2Values();
    Pow2Sum(8, 8, 16, M8, M8);
    Pow2Sum(16, 16, 32, M16, M16);
    Pow2Sum(32, 32, 64, M32, M32);
  }

  // ---------------------------------------------------------------- nonlinear arithmetic

  lemma MulAssoc(a: int, b: int, c: int)
    ensures a * (b * c) == (a * b) * c
  {}

  lemma MulPositive(a: int, b: int)
    requires a > 0 && b > 0
    ensures a * b > 0
  {}

  lemma MulMono(a: int, b: int, c: int)
    requires a <= b && 0 <= c
    ensures a * c <= b * c
  {}

  lemma MulBound(a: int, b: int, x: int, y: int)
    requires 0 <= a <= x && 0 <= b <= y
    ensures 0 <= a * b <= x * y
  {
    MulMono(a, x, b);
    assert a * b <= x * b;
    assert x * b == b * x && x * y == y * x;
    MulMono(b, y, x);
  }

  lemma DivModUnique(a: int, m: int, q: int, r: int)
    requires m > 0 && a == q * m + r && 0 <= r < m
    ensures a / m == q && a % m == r
  {
    var q1, r1 := a / m, a % m;
    assert a == q1 * m + r1;
    assert (q + 1) * m == q * m + m && (q1 + 1) * m == q1 * m + m;
    if q1 > q {
      MulMono(q + 1, q1, m);
    } else if q1 < q {
      MulMono(q1 + 1, q, m);
    }
  }

  lemma ModAddMul(a: int, k: int, m: int)
    requires m > 0
    ensures (a + k * m) % m == a % m
    ensures (a + k * m) / m == a / m + k
  {
    var q, r := a / m, a % m;
    assert a == q * m + r;
    assert (q + k) * m == q * m + k * m;
    DivModUnique(a + k * m, m, q + k, r);
  }

  lemma DivDiv(a: int, b: int, c: int)
    requires 0 <= a && b > 0 && c > 0
    ensures b * c > 0 && a / (b * c) == a / b / c
  {
    MulPositive(b, c);
    var q := a / b;
    var r := a % b;
    var s := q / c;
    var t := q % c;
    assert a == q * b + r && q == s * c + t;
    assert q * b == s * (b * c) + t * b by {
      assert q * b == (s * c) * b + t * b;
      assert (s * c) * b == s * (b * c);
    }
    MulMono(t, c - 1, b);
    assert (c - 1) * b == b * c - b;
    assert 0 <= t * b;
    DivModUnique(a, b * c, s, t * b + r);
  }

  lemma ScaledTerm(x: int, w: int, b: int)
    ensures x * (w * b) == w * (x * b)
  {}

  lemma Sum5(x: int, a: int, b: int, c: int, d: int, e: int)
    ensures x * (a + b + c + d + e) == x * a + x * b + x * c + x * d + x * e
  {
    assert x * (a + b + c + d + e) == x * (a + b + c + d) + x * e;
    assert x * (a + b + c + d) == x * (a + b + c) + x * d;
    assert x * (a + b + c) == x * (a + b) + x * c;
  }

  /** One partial product, named so that a sum of them stays a linear fact. */
  function Prod(x: int, y: int): int {
    x * y
  }

  // ---------------------------------------------------------------- congruence

  /** a and b are the same residue modulo m. */
  ghost predicate Cong(a: int, b: int, m: int)
    requires m > 0
  {
    a % m == b % m
  }

  lemma CongMod(a: int, m: int)
    requires m > 0
    ensures Cong(a % m, a, m)
  {
    assert a == a % m + (a / m) * m;
    ModAddMul(a % m, a / m, m);
  }

  lemma CongRefl(a: int, m: int)
    requires m > 0
    ensures Cong(a, a, m)
  {}

  lemma CongTrans(a: int, b: int, c: int, m: int)
    requires m > 0 && Cong(a, b, m) && Cong(b, c, m)
    ensures Cong(a, c, m) && Cong(c, a, m)
  {}

  lemma CongMultiple(a: int, b: int, k: int, m: int)
    requires m > 0 && a == b + k * m
    ensures Cong(a, b, m)
  {
    ModAddMul(b, k, m);
  }

  /** The witness a congruence stands for. */
  lemma CongWitness(a: int, b: int, m: int) returns (k: int)
    requires m > 0 && Cong(a, b, m)
    ensures a == b + k * m
  {
    k := a / m - b / m;
    assert a == (a / m) * m + a % m;
    assert b == (b / m) * m + b % m;
    assert k * m == (a / m) * m - (b / m) * m;
  }

  lemma CongAdd(a: int, b: int, c: int, d: int, m: int)
    requires m > 0 && Cong(a, b, m) && Cong(c, d, m)
    ensures Cong(a + c, b + d, m)
  {
    var j := CongWitness(a, b, m);
    var k := CongWitness(c, d, m);
    assert (j + k) * m == j * m + k * m;
    CongMultiple(a + c, b + d, j + k, m);
  }

  lemma CongSub(a: int, b: int, c: int, d: int, m: int)
    requires m > 0 && Cong(a, b, m) && Cong(c, d, m)
    ensures Cong(a - c, b - d, m)
  {
    var j := CongWitness(a, b, m);
    var k := CongWitness(c, d, m);
    assert (j - k) * m == j * m - k * m;
    CongMultiple(a - c, b - d, j - k, m);
  }

  lemma MulExpand(b: int, d: int, j: int, k: int, c: int, m: int)
    requires c == d + k * m
    ensures (b + j * m) * c == b * d + (b * k + j * c) * m
  {
    assert (b + j * m) * c == b * c + (j * m) * c;
    assert b * c == b * d + b * (k * m);
    assert b * (k * m) == (b * k) * m;
    assert (j * m) * c == (j * c) * m;
    assert (b * k + j * c) * m == (b * k) * m + (j * c) * m;
  }

  lemma CongMul(a: int, b: int, c: int, d: int, m: int)
    requires m > 0 && Cong(a, b, m) && Cong(c, d, m)
    ensures Cong(a * c, b * d, m)
  {
    var j := CongWitness(a, b, m);
    var k := CongWitness(c, d, m);
    MulExpand(b, d, j, k, c, m);
    CongMultiple(a * c, b * d, b * k + j * c, m);
  }

  lemma CongScale(c: int, x: int, y: int, m: int)
    requires m > 0 && Cong(x, y, m)
    ensures Cong(c * x, c * y, m)
  {
    CongMul(c, c, x, y, m);
  }

  lemma {:induction false} CongPow(a: int, b: int, e: nat, m: int)
    requires m > 0 && Cong(a, b, m)
    ensures Cong(Pow(a, e), Pow(b, e), m)
  {
    if e == 0 {
    } else {
      CongPow(a, b, e - 1, m);
      CongMul(a, b, Pow(a, e - 1), Pow(b, e - 1), m);
    }
  }

  // ---------------------------------------------------------------- bitwise operators

  function And(a: nat, b: nat): nat {
    if a == 0 || b == 0 then 0
    else 2 * And(a / 2, b / 2) + (if a % 2 == 1 && b % 2 == 1 then 1 else 0)
  }

  function Or(a: nat, b: nat): nat {
    if a == 0 then b else if b == 0 then a
    else 2 * Or(a / 2, b / 2) + (if a % 2 == 1 || b % 2 == 1 then 1 else 0)
  }

  function Xor(a: nat, b: nat): nat {
    if a == 0 then b else if b == 0 then a
    else 2 * Xor(a / 2, b / 2) + (if a % 2 == b % 2 then 0 else 1)
  }

  lemma DivBound(x: nat, m: nat)
    requires m > 0
    ensures 0 <= x / m <= x
  {
    assert x == (x / m) * m + x % m;
    if x / m >= 1 {
      MulMono(1, m, x / m);
      assert m * (x / m) == (x / m) * m;
    }
  }

  /** x >> k. */
  function Shr(x: nat, k: nat): (r: nat)
    ensures r <= x
  {
    DivBound(x, Pow2(k));
    x / Pow2(k)
  }

  predicate TestBit(a: nat, j: nat) {
    a / Pow2(j) % 2 == 1
  }

  lemma TestBitShift(a: nat, j: nat)
    requires j > 0
    ensures TestBit(a, j) == TestBit(a / 2, j - 1)
  {
    DivDiv(a, 2, Pow2(j - 1));
  }

  lemma TestBitLow(a: nat)
    ensures TestBit(a, 0) == (a % 2 == 1)
  {}

  lemma {:induction false} TestBitZero(j: nat)
    ensures !TestBit(0, j)
  {
    DivModUnique(0, Pow2(j), 0, 0);
  }

  lemma OrTestLow(a: nat, b: nat)
    ensures TestBit(Or(a, b), 0) == (TestBit(a, 0) || TestBit(b, 0))
  {
    OrUnfold(a, b);
    TestBitLow(a);
    TestBitLow(b);
    TestBitLow(Or(a, b));
    hide TestBit, Or;
  }

  lemma OrHalf(a: nat, b: nat)
    ensures Or(a, b) / 2 == Or(a / 2, b / 2)
  {
    OrUnfold(a, b);
    hide Or;
  }

  lemma {:induction false} OrTestBit(a: nat, b: nat, j: nat)
    ensures TestBit(Or(a, b), j) == (TestBit(a, j) || TestBit(b, j))
  {
    hide TestBit, Or;
    if j == 0 {
      OrTestLow(a, b);
    } else {
      OrTestBit(a / 2, b / 2, j - 1);
      OrHalf(a, b);
      TestBitShift(a, j);
      TestBitShift(b, j);
      TestBitShift(Or(a, b), j);
    }
  }

  lemma AndTestLow(a: nat, b: nat)
    ensures TestBit(And(a, b), 0) == (TestBit(a, 0) && TestBit(b, 0))
  {
    AndUnfold(a, b);
    TestBitLow(a);
    TestBitLow(b);
    TestBitLow(And(a, b));
    hide TestBit, And;
  }

  lemma AndHalf(a: nat, b: nat)
    ensures And(a, b) / 2 == And(a / 2, b / 2)
  {
    AndUnfold(a, b);
    hide And;
  }

  lemma {:induction false} AndTestBit(a: nat, b: nat, j: nat)
    ensures TestBit(And(a, b), j) == (TestBit(a, j) && TestBit(b, j))
  {
    hide TestBit, And;
    if j == 0 {
      AndTestLow(a, b);
    } else {
      AndTestBit(a / 2, b / 2, j - 1);
      AndHalf(a, b);
      TestBitShift(a, j);
      TestBitShift(b, j);
      TestBitShift(And(a, b), j);
    }
  }

  lemma {:induction false} TestBitPow2(k: nat, j: nat)
    ensures TestBit(Pow2(k), j) == (k == j)
  {
    if j == 0 {
      if k > 0 {
        assert Pow2(k) == 2 * Pow2(k - 1);
      }
    } else {
      TestBitShift(Pow2(k), j);
      if k == 0 {
        TestBitZero(j - 1);
      } else {
        assert Pow2(k) / 2 == Pow2(k - 1);
        TestBitPow2(k - 1, j - 1);
      }
    }
  }

  lemma AndStep(x: nat, b: nat, y: nat, d: nat, r: nat)
    requires And(x + b / 2, y + d / 2) == r + And(b / 2, d / 2)
    ensures And(2 * x + b, 2 * y + d) == 2 * r + And(b, d)
  {
    hide And;
    AndUnfold(2 * x + b, 2 * y + d);
    AndUnfold(b, d);
    assert (2 * x + b) / 2 == x + b / 2 && (2 * y + d) / 2 == y + d / 2;
  }

  /** Splitting both operands at bit k splits the conjunction. */
  lemma {:induction false} AndSplit(a: nat, b: nat, c: nat, d: nat, k: nat)
    requires b < Pow2(k) && d < Pow2(k)
    ensures 0 <= a * Pow2(k) && 0 <= c * Pow2(k)
    ensures And(a * Pow2(k) + b, c * Pow2(k) + d) == And(a, c) * Pow2(k) + And(b, d)
    decreases k
  {
    if k == 0 {
    } else {
      hide And;
      var p := Pow2(k - 1);
      AndSplit(a, b / 2, c, d / 2, k - 1);
      DoubleScale(a, p);
      DoubleScale(c, p);
      DoubleScale(And(a, c), p);
      AndStep(a * p, b, c * p, d, And(a, c) * p);
    }
  }

  lemma DoubleScale(a: nat, p: nat)
    ensures 0 <= a * p && a * (2 * p) == 2 * (a * p)
  {}

  lemma AndUnfold(a: nat, b: nat)
    ensures And(a, b) == 2 * And(a / 2, b / 2) + (if a % 2 == 1 && b % 2 == 1 then 1 else 0)
  {}

  lemma OrUnfold(a: nat, b: nat)
    ensures Or(a, b) == 2 * Or(a / 2, b / 2) + (if a % 2 == 1 || b % 2 == 1 then 1 else 0)
  {}

  lemma XorUnfold(a: nat, b: nat)
    ensures Xor(a, b) == 2 * Xor(a / 2, b / 2) + (if a % 2 == b % 2 then 0 else 1)
  {}

  lemma AndZero(a: nat)
    ensures And(a, 0) == 0
  {}

  lemma AndOne(a: nat)
    ensures And(a, 1) == a % 2
  {
    AndUnfold(a, 1);
  }

  lemma ModSame(x: int, m: int, n: int)
    requires m == n > 0
    ensures x % m == x % n
  {}

  lemma HalfMod(a: nat, p: nat)
    requires p > 0
    ensures a % (2 * p) == 2 * (a / 2 % p) + a % 2
  {
    var h := a / 2;
    assert h == (h / p) * p + h % p;
    DoubleScale(h / p, p);
    DivModUnique(a, 2 * p, h / p, 2 * (h % p) + a % 2);
  }

  /** Masking with 2^k - 1 is the remainder modulo 2^k. */
  lemma {:induction false} AndMask(a: nat, k: nat)
    ensures And(a, Pow2(k) - 1) == a % Pow2(k)
    decreases k
  {
    if k == 0 {
    } else {
      var p := Pow2(k - 1);
      AndUnfold(a, 2 * p - 1);
      AndMask(a / 2, k - 1);
      HalfMod(a, p);
    }
  }

  lemma OrStep(x: nat, b: nat)
    requires Or(x, b / 2) == x + b / 2 && Or(b / 2, x) == x + b / 2
    ensures Or(2 * x, b) == 2 * x + b && Or(b, 2 * x) == 2 * x + b
  {
    hide Or;
    OrUnfold(2 * x, b);
    OrUnfold(b, 2 * x);
    assert 2 * x / 2 == x && 2 * x % 2 == 0;
  }

  /** Joining a high part to a low part that fits below it is their sum. */
  lemma {:induction false} OrDisjoint(a: nat, b: nat, k: nat)
    requires b < Pow2(k)
    ensures 0 <= a * Pow2(k) && Or(a * Pow2(k), b) == a * Pow2(k) + b
    ensures Or(b, a * Pow2(k)) == a * Pow2(k) + b
    decreases k
  {
    if k == 0 {
    } else {
      OrDisjoint(a, b / 2, k - 1);
      DoubleScale(a, Pow2(k - 1));
      OrStep(a * Pow2(k - 1), b);
    }
  }

  lemma {:induction false} AndCommutes(a: nat, b: nat)
    ensures And(a, b) == And(b, a)
  {
    if a != 0 && b != 0 {
      AndCommutes(a / 2, b / 2);
    }
  }

  lemma {:induction false} AndBound(a: nat, b: nat)
    ensures And(a, b) <= a && And(a, b) <= b
  {
    if a != 0 && b != 0 {
      AndBound(a / 2, b / 2);
    }
  }

  lemma {:induction false} OrBound(a: nat, b: nat, k: nat)
    requires a < Pow2(k) && b < Pow2(k)
    ensures Or(a, b) < Pow2(k)
  {
    if a != 0 && b != 0 {
      OrBound(a / 2, b / 2, k - 1);
    }
  }

  lemma {:induction false} XorBound(a: nat, b: nat, k: nat)
    requires a < Pow2(k) && b < Pow2(k)
    ensures Xor(a, b) < Pow2(k)
  {
    if a != 0 && b != 0 {
      XorBound(a / 2, b / 2, k - 1);
    }
  }

  lemma XorHalves(a: nat, b: nat)
    ensures Xor(a, b) / 2 == Xor(a / 2, b / 2)
    ensures Xor(a, b) % 2 == (if a % 2 == b % 2 then 0 else 1)
  {
    XorUnfold(a, b);
  }

  lemma {:induction false} XorSelfInverse(a: nat, b: nat)
    ensures Xor(a, Xor(a, b)) == b
    decreases a + b
  {
    if a == 0 {
    } else {
      var x := Xor(a, b);
      XorSelfInverse(a / 2, b / 2);
      XorHalves(a, b);
      XorHalves(a, x);
    }
  }

  lemma {:induction false} XorCommutes(a: nat, b: nat)
    ensures Xor(a, b) == Xor(b, a)
  {
    if a != 0 && b != 0 {
      XorCommutes(a / 2, b / 2);
    }
  }

  lemma {:induction false} XorZero(a: nat, b: nat)
    ensures Xor(a, b) == 0 <==> a == b
  {
    if a != 0 || b != 0 {
      XorUnfold(a, b);
      XorZero(a / 2, b / 2);
    }
  }

  lemma {:induction false} OrZero(a: nat, b: nat)
    ensures Or(a, b) == 0 <==> a == 0 && b == 0
  {
    if a != 0 && b != 0 {
      OrZero(a / 2, b / 2);
    }
  }

  /** (uint32_t)(x << k). */
  function Shl32(x: u32, k: nat): u32 {
    MulBound(x, Pow2(k), x, Pow2(k));
    x * Pow2(k) % 0x1_0000_0000
  }

  /** The bitwise or of two words. */
  function Or32(x: u32, y: u32): (r: u32)
    ensures r == Or(x, y)
  {
    Pow2Wide();
    OrBound(x, y, 32);
    Or(x, y)
  }
}
