/** fe_from_bytes, fe_carry and fe_to_bytes: the byte strings of RFC 7748, section 5, against
    the residues their field elements hold. */
module X25519Bytes {
  import opened Words
  import opened LittleEndian
  import opened X25519Field

  // ---------------------------------------------------------------- words

  /** (x << k) truncated to 64 bits. */
  function Shl64(x: u64, k: nat): u64 {
    MulBound(x, Pow2(k), x, Pow2(k));
    x * Pow2(k) % 0x1_0000_0000_0000_0000
  }

  lemma ShlTrunc(x: u64, k: nat, p: nat, q: nat)
    requires Pow2(k) == p && p * q == 0x1_0000_0000_0000_0000 && q > 0
    ensures Shl64(x, k) == (x % q) * p
  {
    var h, l := x / q, x % q;
    assert x == h * q + l;
    assert x * p == h * 0x1_0000_0000_0000_0000 + l * p by {
      assert (h * q) * p == h * (p * q);
    }
    MulMono(l, q - 1, p);
    assert (q - 1) * p == p * q - p;
    assert 0 <= l * p;
    DivModUnique(x * p, 0x1_0000_0000_0000_0000, h, l * p);
  }

  /** acc | (y << k) with acc below bit k and nothing shifted out. */
  lemma Join(acc: nat, y: u64, k: nat, p: nat)
    requires Pow2(k) == p && acc < p && y * p < 0x1_0000_0000_0000_0000
    ensures Or(acc, Shl64(y, k)) == acc + y * p
  {
    OrDisjoint(y, acc, k);
    DivModUnique(y * p, 0x1_0000_0000_0000_0000, 0, y * p);
  }

  lemma Pow2Bytes()
    ensures Pow2(4) == 0x10 && Pow2(12) == 0x1000 && Pow2(20) == 0x10_0000 && Pow2(28) == 0x1000_0000
    ensures Pow2(36) == 0x10_0000_0000 && Pow2(44) == 0x1000_0000_0000
    ensures Pow2(5) == 0x20 && Pow2(13) == 0x2000 && Pow2(21) == 0x20_0000 && Pow2(29) == 0x2000_0000
    ensures Pow2(37) == 0x20_0000_0000 && Pow2(45) == 0x2000_0000_0000
    ensures Pow2(8) == 0x100 && Pow2(16) == 0x1_0000 && Pow2(24) == 0x100_0000 && Pow2(32) == 0x1_0000_0000
    ensures Pow2(40) == 0x100_0000_0000 && Pow2(48) == 0x1_0000_0000_0000
    ensures Pow2(56) == 0x100_0000_0000_0000
  {
    Pow2Values();
    Pow2Wide();
    Pow2Sum(4, 8, 12, 0x10, 0x100);
    Pow2Sum(12, 8, 20, 0x1000, 0x100);
    Pow2Sum(20, 8, 28, 0x10_0000, 0x100);
    Pow2Sum(28, 8, 36, 0x1000_0000, 0x100);
    Pow2Sum(36, 8, 44, 0x10_0000_0000, 0x100);
    Pow2Sum(5, 8, 13, 0x20, 0x100);
    Pow2Sum(13, 8, 21, 0x2000, 0x100);
    Pow2Sum(21, 8, 29, 0x20_0000, 0x100);
    Pow2Sum(29, 8, 37, 0x2000_0000, 0x100);
    Pow2Sum(37, 8, 45, 0x20_0000_0000, 0x100);
    Pow2Sum(16, 8, 24, 0x1_0000, 0x100);
    Pow2Sum(32, 8, 40, 0x1_0000_0000, 0x100);
    Pow2Sum(40, 8, 48, 0x100_0000_0000, 0x100);
    Pow2Sum(48, 8, 56, 0x1_0000_0000_0000, 0x100);
    hide Pow2;
  }

  lemma Pow2Odd()
    ensures Pow2(2) == 4 && Pow2(10) == 0x400 && Pow2(18) == 0x4_0000 && Pow2(26) == 0x400_0000
    ensures Pow2(34) == 0x4_0000_0000 && Pow2(42) == 0x400_0000_0000 && Pow2(50) == 0x4_0000_0000_0000
    ensures Pow2(7) == 0x80 && Pow2(15) == 0x8000 && Pow2(23) == 0x80_0000 && Pow2(31) == 0x8000_0000
    ensures Pow2(39) == 0x80_0000_0000 && Pow2(47) == 0x8000_0000_0000
    ensures Pow2(25) == 0x200_0000 && Pow2(38) == 0x40_0000_0000
  {
    Pow2Values();
    Pow2Wide();
    Pow2Sum(2, 8, 10, 4, 0x100);
    Pow2Sum(10, 8, 18, 0x400, 0x100);
    Pow2Sum(18, 8, 26, 0x4_0000, 0x100);
    Pow2Sum(26, 8, 34, 0x400_0000, 0x100);
    Pow2Sum(34, 8, 42, 0x4_0000_0000, 0x100);
    Pow2Sum(42, 8, 50, 0x400_0000_0000, 0x100);
    Pow2Sum(7, 8, 15, 0x80, 0x100);
    Pow2Sum(15, 8, 23, 0x8000, 0x100);
    Pow2Sum(23, 8, 31, 0x80_0000, 0x100);
    Pow2Sum(31, 8, 39, 0x8000_0000, 0x100);
    Pow2Sum(39, 8, 47, 0x80_0000_0000, 0x100);
    Pow2Sum(18, 7, 25, 0x4_0000, 0x80);
    Pow2Sum(31, 7, 38, 0x8000_0000, 0x80);
    hide Pow2;
  }

  // ---------------------------------------------------------------- loading

  /** x >> k of a byte and its low k bits. */
  lemma ByteCut(x: u8, k: nat, p: nat)
    requires Pow2(k) == p
    ensures Shr(x, k) == x / p && And(x, p - 1) == x % p
  {
    AndMask(x, k);
  }

  lemma ByteCuts(x: u8)
    ensures Shr(x, 3) == x / 8 && And(x, 7) == x % 8
    ensures Shr(x, 6) == x / 64 && And(x, 0x3F) == x % 64
    ensures Shr(x, 1) == x / 2 && And(x, 1) == x % 2
    ensures Shr(x, 4) == x / 16 && And(x, 0xF) == x % 16
    ensures And(x, 0x7F) == x % 128
  {
    Pow2Values();
    ByteCut(x, 3, 8);
    ByteCut(x, 6, 64);
    ByteCut(x, 1, 2);
    ByteCut(x, 4, 16);
    ByteCut(x, 7, 128);
    hide *;
  }

  /** acc | x[i] << k | x[i+1] << (k + 8) | ... */
  function Gather(acc: nat, x: seq<u8>, i: nat, k: nat): nat
    requires i <= |x|
    decreases |x| - i
  {
    if i == |x| then acc else Gather(Or(acc, Shl64(x[i], k)), x, i + 1, k + 8)
  }

  lemma {:induction false} GatherIs(acc: nat, x: seq<u8>, i: nat, k: nat, p: nat)
    requires i <= |x| && Pow2(k) == p && acc < p && LeFrom(x, i) * p < 0x1_0000_0000_0000_0000
    ensures Gather(acc, x, i, k) == acc + LeFrom(x, i) * p
    decreases |x| - i
  {
    if i < |x| {
      hide Or, Shl64, Pow2;
      var r := LeFrom(x, i + 1);
      GatherStep(x[i], r, p);
      Join(acc, x[i], k, p);
      Pow2Values();
      Pow2Sum(8, k, k + 8, 0x100, p);
      GatherIs(acc + x[i] * p, x, i + 1, k + 8, 0x100 * p);
    }
  }

  lemma GatherStep(b: u8, r: nat, p: nat)
    requires p > 0
    ensures (b + 256 * r) * p == b * p + r * (0x100 * p)
    ensures 0 <= b * p <= 255 * p && 0 <= r * (0x100 * p)
  {
    MulMono(b, 255, p);
    MulAssoc(r, 0x100, p);
    MulPositive(0x100, p);
    MulMono(0, r, 0x100 * p);
  }

  /** Six bytes from x[i] on, as an integer. */
  function Six(x: seq<int>, i: nat): int
    requires i + 6 <= |x|
  {
    x[i] + 0x100 * x[i + 1] + 0x1_0000 * x[i + 2] + 0x100_0000 * x[i + 3] + 0x1_0000_0000 * x[i + 4]
    + 0x100_0000_0000 * x[i + 5]
  }

  lemma LeSix(x: seq<u8>)
    requires 6 <= |x| <= 7
    ensures LeVal(x) == Six(x, 0) + (if |x| == 7 then 0x1_0000_0000_0000 * x[6] as int else 0)
  {
    LeFour(x, 0);
    assert LeFrom(x, 4) == x[4] + 256 * LeFrom(x, 5);
    assert LeFrom(x, 5) == x[5] + 256 * LeFrom(x, 6);
    assert |x| == 7 ==> LeFrom(x, 6) == x[6] + 256 * LeFrom(x, 7);
    hide LeFrom;
  }

  /** fe_from_bytes: the number modulo 2^255, in limbs of 51 bits. */
  method FromBytes(r: array<u64>, b: array<u8>)
    requires r.Length == 5 && b.Length == 32
    modifies r
    ensures Below(r[..], 0x8_0000_0000_0000)
    ensures FeVal(r[..]) == LeVal(b[..]) % TWO255
  {
    hide Gather, LeVal, LeFrom, And, Shr, Pow2, Val5;
    Pow2Bytes();
    Pow2Odd();
    ByteCuts(b[6]);
    ByteCuts(b[12]);
    ByteCuts(b[19]);
    ByteCuts(b[25]);
    ByteCuts(b[31]);
    var t0 := Gather(b[0], [b[1], b[2], b[3], b[4], b[5], And(b[6], 7)], 0, 8);
    var t1 := Gather(Shr(b[6], 3), [b[7], b[8], b[9], b[10], b[11], And(b[12], 0x3F)], 0, 5);
    var t2 := Gather(Shr(b[12], 6), [b[13], b[14], b[15], b[16], b[17], b[18], And(b[19], 1)], 0, 2);
    var t3 := Gather(Shr(b[19], 1), [b[20], b[21], b[22], b[23], b[24], And(b[25], 0xF)], 0, 7);
    var t4 := Gather(Shr(b[25], 4), [b[26], b[27], b[28], b[29], b[30], And(b[31], 0x7F)], 0, 4);
    LoadLimb(b[0], [b[1], b[2], b[3], b[4], b[5], b[6] % 8], 8, 0x100);
    LoadLimb(b[6] / 8, [b[7], b[8], b[9], b[10], b[11], b[12] % 64], 5, 0x20);
    LoadWide(b[12] / 64, [b[13], b[14], b[15], b[16], b[17], b[18], b[19] % 2]);
    LoadLimb(b[19] / 2, [b[20], b[21], b[22], b[23], b[24], b[25] % 16], 7, 0x80);
    LoadLimb(b[25] / 16, [b[26], b[27], b[28], b[29], b[30], b[31] % 128], 4, 0x10);
    LoadBounds(b[..], t0, t1, t2, t3, t4);
    LoadSum(b[..], t0, t1, t2, t3, t4);
    r[0], r[1], r[2], r[3], r[4] := t0, t1, t2, t3, t4;
  }

  lemma LoadLimb(acc: nat, x: seq<u8>, k: nat, p: nat)
    requires |x| == 6 && Pow2(k) == p && p <= 0x100 && acc < p && x[5] as int * p <= 0x7FF
    ensures Gather(acc, x, 0, k) == acc + p * Six(x, 0)
  {
    hide Gather, Pow2, LeFrom;
    LeSix(x);
    LimbFits(x[5] as int, Six(x, 0), p) by {
      assert Six(x, 0) < 0x100_0000_0000 * (x[5] as int + 1);
    }
    GatherIs(acc, x, 0, k, p);
  }

  lemma LimbFits(top: int, v: int, p: nat)
    requires 0 < p <= 0x100 && top * p <= 0x7FF && 0 <= v < 0x100_0000_0000 * (top + 1)
    ensures v * p == p * v && v * p < 0x1_0000_0000_0000_0000
  {
    MulMono(v, 0x100_0000_0000 * (top + 1), p);
    assert 0x100_0000_0000 * (top + 1) * p == 0x100_0000_0000 * (top * p) + 0x100_0000_0000 * p;
  }

  lemma LoadWide(acc: nat, x: seq<u8>)
    requires |x| == 7 && acc < 4 && x[6] <= 1
    ensures Gather(acc, x, 0, 2) == acc + 4 * Six(x, 0) + 0x4_0000_0000_0000 * x[6] as int
  {
    hide Gather, Pow2, LeFrom;
    LeSix(x);
    Pow2Values();
    GatherIs(acc, x, 0, 2, 4);
  }

  const TWO255 := 0x80000000_00000000_00000000_00000000_00000000_00000000_00000000_00000000

  /** The 51 bits of each limb, cut out of the string. */
  predicate Limbs(b: seq<u8>, t0: int, t1: int, t2: int, t3: int, t4: int)
    requires |b| == 32
  {
    && t0 == b[0] as int + 0x100 * Six([b[1], b[2], b[3], b[4], b[5], b[6] % 8], 0)
    && t1 == b[6] as int / 8 + 0x20 * Six([b[7], b[8], b[9], b[10], b[11], b[12] % 64], 0)
    && t2 == b[12] as int / 64 + 4 * Six([b[13], b[14], b[15], b[16], b[17], b[18]], 0) + 0x4_0000_0000_0000 * (b[19] as int % 2)
    && t3 == b[19] as int / 2 + 0x80 * Six([b[20], b[21], b[22], b[23], b[24], b[25] % 16], 0)
    && t4 == b[25] as int / 16 + 0x10 * Six([b[26], b[27], b[28], b[29], b[30], b[31] % 128], 0)
  }

  lemma LoadBounds(b: seq<u8>, t0: int, t1: int, t2: int, t3: int, t4: int)
    requires |b| == 32 && Limbs(b, t0, t1, t2, t3, t4)
    ensures 0 <= t0 < 0x8_0000_0000_0000 && 0 <= t1 < 0x8_0000_0000_0000 && 0 <= t2 < 0x8_0000_0000_0000
    ensures 0 <= t3 < 0x8_0000_0000_0000 && 0 <= t4 < 0x8_0000_0000_0000
  {}

  lemma LoadWords(b: seq<u8>, t0: int, t1: int, t2: int, t3: int, t4: int)
    requires |b| == 32 && Limbs(b, t0, t1, t2, t3, t4)
    ensures Val5(t0, t1, t2, t3, t4) + (b[31] as int / 128) * TWO255
            == Word8(b, 0) + 0x1_0000_0000_0000_0000 * Word8(b, 8)
               + 0x1_0000_0000_0000_0000_0000_0000_0000_0000 * Word8(b, 16)
               + 0x1_0000_0000_0000_0000_0000_0000_0000_0000_0000_0000_0000_0000 * Word8(b, 24)
  {}

  /** The five limbs hold the whole string but its last bit. */
  lemma LoadSum(b: seq<u8>, t0: int, t1: int, t2: int, t3: int, t4: int)
    requires |b| == 32 && Limbs(b, t0, t1, t2, t3, t4)
    ensures Val5(t0, t1, t2, t3, t4) == LeVal(b) % TWO255
  {
    hide Limbs, LeVal, Word8;
    LeWords(b);
    LoadWords(b, t0, t1, t2, t3, t4);
    LoadBounds(b, t0, t1, t2, t3, t4);
    DivModUnique(LeVal(b), TWO255, b[31] as int / 128, Val5(t0, t1, t2, t3, t4));
  }

  // ---------------------------------------------------------------- storing

  /** A tight element after one pass of carries: only limb 1 can still be over, by one, and then
      limb 0 is nearly empty. */
  predicate Settled(a: seq<u64>) {
    && |a| == 5
    && a[0] < 0x8_0000_0000_0000 && a[1] <= 0x8_0000_0000_0000 && a[2] < 0x8_0000_0000_0000
    && a[3] < 0x8_0000_0000_0000 && a[4] < 0x8_0000_0000_0000
    && (a[1] == 0x8_0000_0000_0000 ==> a[0] < 19)
  }

  lemma CarryOnce(t0: int, t1: int, t2: int, t3: int, t4: int,
                  c0: int, c1: int, c2: int, c3: int, c4: int, c5: int,
                  r0: int, r1: int, r2: int, r3: int, r4: int, s0: int)
    requires 0 <= r0 < 0x8_0000_0000_0000 && 0 <= r1 < 0x8_0000_0000_0000 && 0 <= r2 < 0x8_0000_0000_0000
    requires 0 <= r3 < 0x8_0000_0000_0000 && 0 <= r4 < 0x8_0000_0000_0000 && 0 <= s0 < 0x8_0000_0000_0000
    requires t0 == c0 * 0x8_0000_0000_0000 + r0
    requires t1 + c0 == c1 * 0x8_0000_0000_0000 + r1
    requires t2 + c1 == c2 * 0x8_0000_0000_0000 + r2
    requires t3 + c2 == c3 * 0x8_0000_0000_0000 + r3
    requires t4 + c3 == c4 * 0x8_0000_0000_0000 + r4
    requires r0 + 19 * c4 == c5 * 0x8_0000_0000_0000 + s0
    requires 0 <= t0 < TIGHT && 0 <= t1 < TIGHT && 0 <= t2 < TIGHT && 0 <= t3 < TIGHT && 0 <= t4 < TIGHT
    ensures 0 <= c5 <= 1 && (c5 == 1 ==> s0 < 19)
    ensures t0 < 0x8_0000_0000_0000 && t1 <= 0x8_0000_0000_0000 && t2 < 0x8_0000_0000_0000
            && t3 < 0x8_0000_0000_0000 && t4 < 0x8_0000_0000_0000 && (t1 == 0x8_0000_0000_0000 ==> t0 < 19)
            ==> r1 + c5 < 0x8_0000_0000_0000
  {
    assert 0 <= c0 <= 1;
    assert 0 <= c1 <= 1;
    assert 0 <= c2 <= 1;
    assert 0 <= c3 <= 1;
    assert 0 <= c4 <= 1;
  }

  lemma CarryPass(t: seq<u64>, r: seq<u64>, c0: int, c1: int, c2: int, c3: int, c4: int, c5: int, r0: int, r1: int)
    requires |t| == |r| == 5
    requires 0 <= r0 < 0x8_0000_0000_0000 && 0 <= r1 < 0x8_0000_0000_0000 && r[2] < 0x8_0000_0000_0000
    requires r[3] < 0x8_0000_0000_0000 && r[4] < 0x8_0000_0000_0000 && r[0] < 0x8_0000_0000_0000
    requires t[0] == c0 * 0x8_0000_0000_0000 + r0
    requires t[1] + c0 == c1 * 0x8_0000_0000_0000 + r1
    requires t[2] + c1 == c2 * 0x8_0000_0000_0000 + r[2]
    requires t[3] + c2 == c3 * 0x8_0000_0000_0000 + r[3]
    requires t[4] + c3 == c4 * 0x8_0000_0000_0000 + r[4]
    requires r0 + 19 * c4 == c5 * 0x8_0000_0000_0000 + r[0]
    requires r[1] == r1 + c5
    ensures Cong(FeVal(r), FeVal(t), P)
    ensures Tight(t) ==> Settled(r)
    ensures Settled(t) ==> Below(r, 0x8_0000_0000_0000)
  {
    CarryValue(t[0], t[1], t[2], t[3], t[4], c0, c1, c2, c3, c4, c5, r0, r1, r[2], r[3], r[4], r[0], r[1]);
    if Tight(t) {
      CarryOnce(t[0], t[1], t[2], t[3], t[4], c0, c1, c2, c3, c4, c5, r0, r1, r[2], r[3], r[4], r[0]);
    }
    hide Val5, Cong;
  }

  /** One step of fe_carry: what limb i holds past 51 bits goes to limb j, times its weight. */
  method MoveCarry(r: array<u64>, i: nat, j: nat, weight: nat) returns (ghost c: nat)
    requires r.Length == 5 && i < 5 && j < 5 && i != j && (weight == 1 || weight == 19)
    requires r[j] < 0x8000_0000_0001_0000
    modifies r
    ensures r[i] < 0x8_0000_0000_0000 && old(r[i]) == c * 0x8_0000_0000_0000 + r[i]
    ensures c < 0x2000 && r[j] == old(r[j]) + weight * c
    ensures forall k :: 0 <= k < 5 && k != i && k != j ==> r[k] == old(r[k])
  {
    Cut51(r[i]);
    var carry := Hi51(r[i]);
    c := carry;
    r[i] := Lo51(r[i]);
    r[j] := r[j] + carry * weight;
  }

  /** fe_carry. One pass settles a tight element and a second one leaves every limb in 51 bits. */
  method Carry(r: array<u64>)
    requires r.Length == 5 && Below(r[..], 0x8000_0000_0000_0000)
    modifies r
    ensures Cong(FeVal(r[..]), old(FeVal(r[..])), P)
    ensures old(Tight(r[..])) ==> Settled(r[..])
    ensures old(Settled(r[..])) ==> Below(r[..], 0x8_0000_0000_0000)
  {
    ghost var t := r[..];
    ghost var c0 := MoveCarry(r, 0, 1, 1);
    ghost var c1 := MoveCarry(r, 1, 2, 1);
    ghost var c2 := MoveCarry(r, 2, 3, 1);
    ghost var c3 := MoveCarry(r, 3, 4, 1);
    ghost var c4 := MoveCarry(r, 4, 0, 19);
    ghost var r0: int, r1: int := r[0] - 19 * c4, r[1];
    ghost var c5 := MoveCarry(r, 0, 1, 1);
    CarryPass(t, r[..], c0, c1, c2, c3, c4, c5, r0, r1);
    hide Val5, Cong, Settled, Tight;
  }

  // ---------------------------------------------------------------- the canonical residue

  /** t4 >> 51 is one exactly when v + 19 reaches 2^255, that is when v reaches the prime. */
  lemma Canonical(a0: int, a1: int, a2: int, a3: int, a4: int, t0: int, t1: int, t2: int, t3: int, t4: int,
                  c0: int, c1: int, c2: int, c3: int, c4: int, l0: int, l1: int, l2: int, l3: int, l4: int)
    requires 0 <= a0 < 0x8_0000_0000_0000 && 0 <= a1 < 0x8_0000_0000_0000 && 0 <= a2 < 0x8_0000_0000_0000
    requires 0 <= a3 < 0x8_0000_0000_0000 && 0 <= a4 < 0x8_0000_0000_0000
    requires t0 == a0 + 19 && t1 == a1 + c0 && t2 == a2 + c1 && t3 == a3 + c2 && t4 == a4 + c3
    requires t0 == c0 * 0x8_0000_0000_0000 + l0 && t1 == c1 * 0x8_0000_0000_0000 + l1
    requires t2 == c2 * 0x8_0000_0000_0000 + l2 && t3 == c3 * 0x8_0000_0000_0000 + l3
    requires t4 == c4 * 0x8_0000_0000_0000 + l4
    requires 0 <= l0 < 0x8_0000_0000_0000 && 0 <= l1 < 0x8_0000_0000_0000 && 0 <= l2 < 0x8_0000_0000_0000
    requires 0 <= l3 < 0x8_0000_0000_0000 && 0 <= l4 < 0x8_0000_0000_0000
    ensures 0 <= c4 <= 1
    ensures c4 == 0 ==> Val5(a0, a1, a2, a3, a4) == Val5(a0, a1, a2, a3, a4) % P
    ensures c4 == 1 ==> Val5(l0, l1, l2, l3, l4) == Val5(a0, a1, a2, a3, a4) % P
  {
    assert 0 <= c0 <= 1;
    assert 0 <= c1 <= 1;
    assert 0 <= c2 <= 1;
    assert 0 <= c3 <= 1;
    assert 0 <= c4 <= 1;
    var v, w := Val5(a0, a1, a2, a3, a4), Val5(l0, l1, l2, l3, l4);
    assert v + 19 == w + c4 * TWO255;
    assert 0 <= v < TWO255 && 0 <= w < TWO255;
    if c4 == 0 {
      DivModUnique(v, P, 0, v);
    } else {
      DivModUnique(v, P, 1, w);
    }
  }

  /** (a & ~mask) | (t & mask) with mask = -swap. */
  function Select(a: u64, t: u64, swap: u64): nat {
    Or(And(a, 0xFFFF_FFFF_FFFF_FFFF - Neg64(swap)), And(t, Neg64(swap)))
  }

  lemma SelectIs(a: u64, t: u64, swap: u64)
    requires swap <= 1
    ensures Select(a, t, swap) == if swap == 1 then t else a
  {
    Pow2Wide();
    AndMask(a, 64);
    AndMask(t, 64);
    ModSmall(a);
    ModSmall(t);
  }

  /** Four 64-bit words out of five 51-bit limbs: the bits shifted past 64 come back in the next word. */
  lemma Repack(a0: u64, a1: u64, a2: u64, a3: u64, a4: u64)
    requires a0 < 0x8_0000_0000_0000 && a1 < 0x8_0000_0000_0000 && a2 < 0x8_0000_0000_0000
    requires a3 < 0x8_0000_0000_0000 && a4 < 0x8_0000_0000_0000
    ensures
      var s0, s1 := Or(a0, Shl64(a1, 51)), Or(Shr(a1, 13), Shl64(a2, 38));
      var s2, s3 := Or(Shr(a2, 26), Shl64(a3, 25)), Or(Shr(a3, 39), Shl64(a4, 12));
      && s0 < 0x1_0000_0000_0000_0000 && s1 < 0x1_0000_0000_0000_0000
      && s2 < 0x1_0000_0000_0000_0000 && s3 < 0x1_0000_0000_0000_0000
      && s0 + 0x1_0000_0000_0000_0000 * s1 + 0x1_0000_0000_0000_0000_0000_0000_0000_0000 * s2
         + 0x1_0000_0000_0000_0000_0000_0000_0000_0000_0000_0000_0000_0000 * s3 == Val5(a0, a1, a2, a3, a4)
  {
    Pow2Bytes();
    Pow2Odd();
    Pow2At51();
    hide Or, Shl64, Pow2;
    PackWord(a0, a1, 51, 0x8_0000_0000_0000, 0x2000);
    PackWord(a1 / 0x2000, a2, 38, 0x40_0000_0000, 0x400_0000);
    PackWord(a2 / 0x400_0000, a3, 25, 0x200_0000, 0x80_0000_0000);
    PackWord(a3 / 0x80_0000_0000, a4, 12, 0x1000, 0x10_0000_0000_0000);
  }

  lemma PackWord(low: nat, x: u64, k: nat, p: nat, q: nat)
    requires Pow2(k) == p && p * q == 0x1_0000_0000_0000_0000 && q > 0 && low < p
    ensures Or(low, Shl64(x, k)) == low + (x % q) * p < 0x1_0000_0000_0000_0000
  {
    ShlTrunc(x, k, p, q);
    OrDisjoint(x % q, low, k);
    MulMono(x % q, q - 1, p);
    assert (q - 1) * p == p * q - p;
  }

  /** The eight byte stores of one word. */
  method StoreWord(out: array<u8>, off: nat, s: u64)
    requires off + 8 <= out.Length
    modifies out
    ensures Word8(out[..], off) == s
    ensures forall k :: 0 <= k < out.Length && (k < off || off + 8 <= k) ==> out[k] == old(out[k])
  {
    hide ByteOf, Word8;
    for i := 0 to 8
      modifies out
      invariant forall k :: 0 <= k < out.Length && (k < off || off + 8 <= k) ==> out[k] == old(out[k])
      invariant forall k :: 0 <= k < i ==> out[off + k] == ByteOf(s, k)
    {
      out[off + i] := ByteOf(s, i);
    }
    WordStored(out[..], off, s);
  }

  lemma WordStored(b: seq<u8>, off: nat, s: u64)
    requires off + 8 <= |b| && forall k :: 0 <= k < 8 ==> b[off + k] == ByteOf(s, k)
    ensures Word8(b, off) == s
  {
    BytesSum(s);
    hide ByteOf;
    assert b[off + 0] == ByteOf(s, 0);
  }

  lemma BytesSum(s: u64)
    ensures s == ByteOf(s, 0) as int + 0x100 * ByteOf(s, 1) + 0x1_0000 * ByteOf(s, 2) + 0x100_0000 * ByteOf(s, 3)
                 + 0x1_0000_0000 * ByteOf(s, 4) + 0x100_0000_0000 * ByteOf(s, 5)
                 + 0x1_0000_0000_0000 * ByteOf(s, 6) + 0x100_0000_0000_0000 * ByteOf(s, 7)
  {
    ByteStep(s, 0);
    ByteStep(s, 1);
    ByteStep(s, 2);
    ByteStep(s, 3);
    ByteStep(s, 4);
    ByteStep(s, 5);
    ByteStep(s, 6);
    ByteStep(s, 7);
    NoneLeft(s);
    hide ByteOf, Shr;
  }

  lemma NoneLeft(s: u64)
    ensures Shr(s, 0) == s && Shr(s, 64) == 0
  {
    Pow2Wide();
    Pow2Values();
    DivModUnique(s, Pow2(64), 0, s);
  }

  lemma ByteStep(s: u64, i: nat)
    ensures Shr(s, 8 * i) == 0x100 * Shr(s, 8 * (i + 1)) + ByteOf(s, i)
  {
    Pow2Values();
    Pow2Add(8 * i, 8);
    DivDiv(s, Pow2(8 * i), 0x100);
  }

  /** fe_to_bytes of what fe_mul leaves: the canonical encoding of the residue. */
  method ToBytes(out: array<u8>, a_in: array<u64>)
    requires out.Length == 32 && a_in.Length == 5 && Tight(a_in[..])
    modifies out
    ensures LeVal(out[..]) == FeVal(a_in[..]) % P
  {
    var a := new u64[5];
    for i := 0 to 5
      invariant forall k :: 0 <= k < i ==> a[k] == a_in[k]
    {
      a[i] := a_in[i];
    }
    assert a[..] == a_in[..];
    Carry(a);
    Carry(a);
    Reduce(a);
    Pack(out, a);
    hide Val5, LeVal, Cong;
  }

  /** The four words of fe_to_bytes and their byte stores. */
  method Pack(out: array<u8>, a: array<u64>)
    requires out.Length == 32 && a.Length == 5 && Below(a[..], 0x8_0000_0000_0000)
    modifies out
    ensures LeVal(out[..]) == FeVal(a[..])
  {
    hide LeVal, Val5, Word8, Or, Shr, Shl64;
    Repack(a[0], a[1], a[2], a[3], a[4]);
    var s0: u64, s1: u64 := Or(a[0], Shl64(a[1], 51)), Or(Shr(a[1], 13), Shl64(a[2], 38));
    var s2: u64, s3: u64 := Or(Shr(a[2], 26), Shl64(a[3], 25)), Or(Shr(a[3], 39), Shl64(a[4], 12));
    StoreWord(out, 0, s0);
    ghost var o0 := out[..];
    StoreWord(out, 8, s1);
    ghost var o1 := out[..];
    StoreWord(out, 16, s2);
    ghost var o2 := out[..];
    StoreWord(out, 24, s3);
    Word8Same(o0, out[..], 0);
    Word8Same(o1, out[..], 8);
    Word8Same(o2, out[..], 16);
    LeWords(out[..]);
  }

  lemma Word8Same(a: seq<u8>, b: seq<u8>, i: nat)
    requires i + 8 <= |a| == |b| && (forall k :: i <= k < i + 8 ==> a[k] == b[k])
    ensures Word8(a, i) == Word8(b, i)
  {}

  /** The conditional subtraction of the prime. */
  method Reduce(a: array<u64>)
    requires a.Length == 5 && Below(a[..], 0x8_0000_0000_0000)
    modifies a
    ensures Below(a[..], 0x8_0000_0000_0000)
    ensures FeVal(a[..]) == old(FeVal(a[..])) % P
  {
    hide Hi51, Val5, Select, And, Shr;
    var t0: u64 := a[0] + 19;
    Cut51(t0);
    var c: u64 := Hi51(t0);
    ghost var c0 := c;
    var t1: u64 := a[1] + c;
    Cut51(t1);
    c := Hi51(t1);
    ghost var c1 := c;
    var t2: u64 := a[2] + c;
    Cut51(t2);
    c := Hi51(t2);
    ghost var c2 := c;
    var t3: u64 := a[3] + c;
    Cut51(t3);
    c := Hi51(t3);
    var t4: u64 := a[4] + c;
    Cut51(t4);
    Canonical(a[0], a[1], a[2], a[3], a[4], t0, t1, t2, t3, t4, c0, c1, c2, c, Hi51(t4), Lo51(t0), Lo51(t1), Lo51(t2), Lo51(t3), Lo51(t4));
    AndOne(Hi51(t4));
    var swap: u64 := And(Hi51(t4), 1);
    SelectIs(a[0], Lo51(t0), swap);
    SelectIs(a[1], Lo51(t1), swap);
    SelectIs(a[2], Lo51(t2), swap);
    SelectIs(a[3], Lo51(t3), swap);
    SelectIs(a[4], Lo51(t4), swap);
    a[0] := Select(a[0], Lo51(t0), swap);
    a[1] := Select(a[1], Lo51(t1), swap);
    a[2] := Select(a[2], Lo51(t2), swap);
    a[3] := Select(a[3], Lo51(t3), swap);
    a[4] := Select(a[4], Lo51(t4), swap);
  }

  // ---------------------------------------------------------------- there and back

  /** fe_to_bytes after fe_from_bytes: the number without its last bit, reduced modulo the prime, so
      that a string that encodes a number below the prime comes back as it was. */
  method Reencode(out: array<u8>, b: array<u8>)
    requires out.Length == 32 && b.Length == 32
    modifies out
    ensures LeVal(out[..]) == old(LeVal(b[..])) % TWO255 % P
    ensures old(Canonical32(b[..])) ==> out[..] == old(b[..])
  {
    hide LeVal, Val5, Below, Canonical32;
    var r := new u64[5];
    ghost var was := b[..];
    FromBytes(r, b);
    BelowTight(r[..]);
    ToBytes(out, r);
    CanonicalKept(was);
    EncodingUnique(out[..], was, LeVal(was) % TWO255);
  }

  /** The string encodes a number below the prime. */
  predicate Canonical32(b: seq<u8>) {
    |b| == 32 && LeVal(b) < P
  }

  lemma BelowTight(r: seq<u64>)
    requires Below(r, 0x8_0000_0000_0000)
    ensures Tight(r)
  {}

  /** A string that encodes the residue of v encodes a number below the prime, and it is the only
      string of 32 bytes below the prime that is congruent to v. */
  lemma EncodingUnique(out: seq<u8>, c: seq<u8>, v: nat)
    requires |out| == 32 && LeVal(out) == v % P
    ensures Canonical32(out)
    ensures Canonical32(c) && LeVal(c) % P == v % P ==> c == out
  {
    if Canonical32(c) && LeVal(c) % P == v % P {
      ResidueOfSmall(LeVal(c));
      LeUnique(out, c, 0);
      assert out[0..] == out && c[0..] == c;
    }
    hide LeFrom;
  }

  lemma ResidueOfSmall(v: nat)
    ensures v < P ==> v % TWO255 == v && v % P == v
  {}

  lemma CanonicalKept(b: seq<u8>)
    requires |b| == 32
    ensures Canonical32(b) ==> LeVal(b) % P == LeVal(b) % TWO255 % P
  {
    ResidueOfSmall(LeVal(b));
    hide LeVal;
  }
}
