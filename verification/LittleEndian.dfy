/** Little-endian byte strings and the integers they encode, as the loads and stores of
    kernel/x25519.c, kernel/poly1305.c and kernel/fat32.c use them. */
module LittleEndian {
  import opened Words

  /** The integer encoded by the bytes from index i on. */
  function LeFrom(b: seq<u8>, i: nat): nat
    requires i <= |b|
    decreases |b| - i
  {
    if i == |b| then 0 else b[i] + 256 * LeFrom(b, i + 1)
  }

  function LeVal(b: seq<u8>): nat {
    LeFrom(b, 0)
  }

  lemma {:induction false} LeBound(b: seq<u8>, i: nat)
    requires i <= |b|
    ensures LeFrom(b, i) < Pow2(8 * (|b| - i))
    decreases |b| - i
  {
    if i < |b| {
      LeBound(b, i + 1);
      Pow2Values();
      Pow2Sum(8, 8 * (|b| - i - 1), 8 * (|b| - i), 0x100, Pow2(8 * (|b| - i - 1)));
    }
  }

  /** The encoding of a number in a given length is unique. */
  lemma {:induction false} LeUnique(a: seq<u8>, b: seq<u8>, i: nat)
    requires i <= |a| == |b| && LeFrom(a, i) == LeFrom(b, i)
    ensures a[i..] == b[i..]
    decreases |a| - i
  {
    if i < |a| {
      LowDigit(a[i], LeFrom(a, i + 1), b[i], LeFrom(b, i + 1));
      LeUnique(a, b, i + 1);
      assert a[i..] == [a[i]] + a[i + 1..] && b[i..] == [b[i]] + b[i + 1..];
    }
  }

  lemma LowDigit(b: u8, r: nat, c: u8, q: nat)
    requires b + 256 * r == c + 256 * q
    ensures b == c && r == q
  {}

  /** Bytes that agree from i on encode the same number from i on. */
  lemma {:induction false} LeSame(a: seq<u8>, b: seq<u8>, i: nat)
    requires i <= |a| == |b| && (forall k :: i <= k < |a| ==> a[k] == b[k])
    ensures LeFrom(a, i) == LeFrom(b, i)
    decreases |a| - i
  {
    if i < |a| {
      LeSame(a, b, i + 1);
    }
  }

  lemma LeFour(b: seq<u8>, i: nat)
    requires i + 4 <= |b|
    ensures LeFrom(b, i) == b[i] + 0x100 * b[i + 1] + 0x1_0000 * b[i + 2] + 0x100_0000 * b[i + 3] + 0x1_0000_0000 * LeFrom(b, i + 4)
  {
    assert LeFrom(b, i) == b[i] + 256 * LeFrom(b, i + 1);
    assert LeFrom(b, i + 1) == b[i + 1] + 256 * LeFrom(b, i + 2);
    assert LeFrom(b, i + 2) == b[i + 2] + 256 * LeFrom(b, i + 3);
    assert LeFrom(b, i + 3) == b[i + 3] + 256 * LeFrom(b, i + 4);
    hide LeFrom;
  }

  /** Eight bytes of the encoding as one 64-bit word. */
  function Word8(b: seq<int>, i: nat): int
    requires i + 8 <= |b|
  {
    b[i] + 0x100 * b[i + 1] + 0x1_0000 * b[i + 2] + 0x100_0000 * b[i + 3]
    + 0x1_0000_0000 * b[i + 4] + 0x100_0000_0000 * b[i + 5]
    + 0x1_0000_0000_0000 * b[i + 6] + 0x100_0000_0000_0000 * b[i + 7]
  }

  lemma LeEight(b: seq<u8>, i: nat)
    requires i + 8 <= |b|
    ensures LeFrom(b, i) == Word8(b, i) + 0x1_0000_0000_0000_0000 * LeFrom(b, i + 8)
  {
    hide LeFrom;
    LeFour(b, i);
    LeFour(b, i + 4);
  }

  /** Thirty-two bytes as four 64-bit words. */
  lemma LeWords(b: seq<u8>)
    requires |b| == 32
    ensures LeVal(b) == Word8(b, 0) + 0x1_0000_0000_0000_0000 * Word8(b, 8)
                        + 0x1_0000_0000_0000_0000_0000_0000_0000_0000 * Word8(b, 16)
                        + 0x1_0000_0000_0000_0000_0000_0000_0000_0000_0000_0000_0000_0000 * Word8(b, 24)
  {
    hide LeFrom, Word8;
    LeEight(b, 0);
    LeEight(b, 8);
    LeEight(b, 16);
    LeEight(b, 24);
    LeEnd(b);
  }

  lemma LeEnd(b: seq<u8>)
    ensures LeFrom(b, |b|) == 0
  {}

  // ---------------------------------------------------------------- bits


  /** Bit t of the number is bit t mod 8 of byte t div 8. */
  lemma {:induction false} LeBit(b: seq<u8>, i: nat, t: nat)
    requires i <= |b| && t < 8 * (|b| - i)
    ensures TestBit(LeFrom(b, i), t) == TestBit(b[i + t / 8], t % 8)
    decreases |b| - i
  {
    var r := LeFrom(b, i + 1);
    if t < 8 {
      LowBit(b[i], r, t);
    } else {
      LeBit(b, i + 1, t - 8);
      HighBit(b[i], r, t);
      assert i + t / 8 == i + 1 + (t - 8) / 8;
    }
  }

  lemma LowBit(b: u8, r: nat, t: nat)
    requires t < 8
    ensures TestBit(b + 256 * r, t) == TestBit(b, t)
  {
    var p, q := Pow2(t), Pow2(7 - t);
    Pow2Values();
    Pow2Add(t, 7 - t);
    EvenPart(b, r, p, q);
    hide Pow2;
  }

  lemma EvenPart(b: nat, r: nat, p: nat, q: nat)
    requires p * q == 128 && p > 0
    ensures (b + 256 * r) / p % 2 == b / p % 2
  {
    assert (2 * (q * r)) * p == 256 * r by {
      MulAssoc(p, q, r);
    }
    ModAddMul(b, 2 * (q * r), p);
  }

  lemma HighBit(b: u8, r: nat, t: nat)
    requires t >= 8
    ensures TestBit(b + 256 * r, t) == TestBit(r, t - 8)
  {
    Pow2Values();
    Pow2Add(8, t - 8);
    DivDiv(b + 256 * r, 256, Pow2(t - 8));
  }

  // ---------------------------------------------------------------- 32-bit words

  /** (x << k) on 32 bits keeps what stays below bit 32. */
  lemma ShlTrunc32(x: u32, k: nat, p: nat, q: nat)
    requires Pow2(k) == p && p * q == 0x1_0000_0000 && q > 0
    ensures Shl32(x, k) == (x % q) * p
  {
    var h, l := x / q, x % q;
    assert x == h * q + l;
    assert x * p == h * 0x1_0000_0000 + l * p by {
      assert (h * q) * p == h * (p * q);
    }
    MulMono(l, q - 1, p);
    assert (q - 1) * p == p * q - p;
    assert 0 <= l * p;
    DivModUnique(x * p, 0x1_0000_0000, h, l * p);
  }

  lemma Pack32(low: u32, x: u32, k: nat, p: nat, q: nat)
    requires Pow2(k) == p && p * q == 0x1_0000_0000 && q > 0 && low < p
    ensures Or32(low, Shl32(x, k)) == low + (x % q) * p
  {
    ShlTrunc32(x, k, p, q);
    OrDisjoint(x % q, low, k);
  }

  lemma Pow2Words()
    ensures Pow2(6) == 0x40 && Pow2(8) == 0x100 && Pow2(12) == 0x1000 && Pow2(14) == 0x4000
    ensures Pow2(16) == 0x1_0000 && Pow2(18) == 0x4_0000 && Pow2(20) == 0x10_0000 && Pow2(24) == 0x100_0000
    ensures Pow2(26) == 0x400_0000 && Pow2(31) == 0x8000_0000 && Pow2(32) == 0x1_0000_0000
  {
    Pow2Values();
    Pow2Wide();
    Pow2Sum(4, 8, 12, 0x10, 0x100);
    Pow2Sum(6, 8, 14, 0x40, 0x100);
    Pow2Sum(2, 16, 18, 4, 0x1_0000);
    Pow2Sum(4, 16, 20, 0x10, 0x1_0000);
    Pow2Sum(8, 16, 24, 0x100, 0x1_0000);
    Pow2Sum(2, 24, 26, 4, 0x100_0000);
    Pow2Sum(5, 26, 31, 0x20, 0x400_0000);
    hide Pow2;
  }

  /** Four bytes loaded with shifts and ors: load32_le and le32. */
  function Load32(b: seq<u8>, i: nat): u32
    requires i + 4 <= |b|
  {
    Or32(Or32(Or32(b[i], Shl32(b[i + 1], 8)), Shl32(b[i + 2], 16)), Shl32(b[i + 3], 24))
  }

  lemma Load32Is(b: seq<u8>, i: nat)
    requires i + 4 <= |b|
    ensures Load32(b, i) == b[i] as int + 0x100 * b[i + 1] as int + 0x1_0000 * b[i + 2] as int + 0x100_0000 * b[i + 3] as int
  {
    hide Or32, Shl32, Pow2;
    Pow2Words();
    Pack32(b[i], b[i + 1], 8, 0x100, 0x100_0000);
    Pack32(b[i] as int + 0x100 * b[i + 1] as int, b[i + 2], 16, 0x1_0000, 0x1_0000);
    Pack32(b[i] as int + 0x100 * b[i + 1] as int + 0x1_0000 * b[i + 2] as int, b[i + 3], 24, 0x100_0000, 0x100);
  }

  /** (uint8_t)(v >> (8 * i)). */
  function ByteOf(v: nat, i: nat): u8 {
    Shr(v, 8 * i) % 0x100
  }

  lemma BytesOf(v: u32)
    ensures v == ByteOf(v, 0) as int + 0x100 * ByteOf(v, 1) as int + 0x1_0000 * ByteOf(v, 2) as int + 0x100_0000 * ByteOf(v, 3) as int
  {
    Pow2Words();
    Pow2Values();
    hide Pow2;
  }

  /** The word four bytes encode. */
  function Word4(b: seq<int>, i: nat): int
    requires i + 4 <= |b|
  {
    b[i] + 0x100 * b[i + 1] + 0x1_0000 * b[i + 2] + 0x100_0000 * b[i + 3]
  }

  lemma Word4Same(a: seq<u8>, b: seq<u8>, i: nat)
    requires i + 4 <= |a| == |b| && (forall k :: i <= k < i + 4 ==> a[k] == b[k])
    ensures Word4(a, i) == Word4(b, i)
  {}
}
