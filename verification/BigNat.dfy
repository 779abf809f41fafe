/** Numbers as little-endian limbs of 32 bits and as big-endian byte strings. */
module BigNat {
  import opened Words

  /** The number a sequence of limbs stands for, least significant limb first. */
  function Val(s: seq<u32>): nat {
    if |s| == 0 then 0 else s[0] + 0x1_0000_0000 * Val(s[1..])
  }

  /** 2^(32 n). */
  function Radix(n: nat): (r: nat)
    ensures r > 0
  {
    if n == 0 then 1 else 0x1_0000_0000 * Radix(n - 1)
  }

  /** 256^n. */
  function Radix8(n: nat): (r: nat)
    ensures r > 0
  {
    if n == 0 then 1 else 256 * Radix8(n - 1)
  }

  /** The number a big-endian byte string stands for (OS2IP of RFC 8017, section 4.2). */
  function BeVal(be: seq<u8>): nat {
    if |be| == 0 then 0 else BeVal(be[..|be| - 1]) * 256 + be[|be| - 1]
  }

  /** The low n bytes of v, most significant first (I2OSP of RFC 8017, section 4.1). */
  function IntToBytes(v: nat, n: nat): (b: seq<u8>)
    ensures |b| == n
  {
    if n == 0 then [] else IntToBytes(v / 256, n - 1) + [v % 256]
  }

  // ---------------------------------------------------------------- limbs

  lemma {:induction false} ValAppend(s: seq<u32>, t: seq<u32>)
    ensures Val(s + t) == Val(s) + Radix(|s|) * Val(t)
  {
    if |s| == 0 {
      assert s + t == t;
    } else {
      assert (s + t)[1..] == s[1..] + t;
      ValAppend(s[1..], t);
      MulAssoc(0x1_0000_0000, Radix(|s| - 1), Val(t));
    }
  }

  lemma ValSplit(s: seq<u32>, i: nat)
    requires i <= |s|
    ensures Val(s) == Val(s[..i]) + Radix(i) * Val(s[i..])
  {
    assert s == s[..i] + s[i..];
    ValAppend(s[..i], s[i..]);
  }

  lemma ValOne(x: u32)
    ensures Val([x]) == x
  {
    assert [x][1..] == [];
  }

  /** One more limb of a prefix. */
  lemma ValSnoc(s: seq<u32>, i: nat)
    requires i < |s|
    ensures Val(s[..i + 1]) == Val(s[..i]) + Radix(i) * s[i]
  {
    assert s[..i + 1] == s[..i] + [s[i]];
    ValAppend(s[..i], [s[i]]);
    ValOne(s[i]);
  }

  lemma ValWhole(s: seq<u32>, i: nat)
    requires i == |s|
    ensures Val(s[..i]) == Val(s)
  {
    assert s[..i] == s;
  }

  lemma ValCons(s: seq<u32>)
    requires |s| > 0
    ensures Val(s) == s[0] + 0x1_0000_0000 * Val(s[1..])
  {}

  /** A number cut around one limb. */
  lemma ValAround(s: seq<u32>, i: nat)
    requires i < |s|
    ensures Val(s) == Val(s[..i]) + Radix(i) * (s[i] + 0x1_0000_0000 * Val(s[i + 1..]))
  {
    hide Radix, Val;
    ValSplit(s, i);
    ValCons(s[i..]);
    assert s[i..][1..] == s[i + 1..];
  }

  lemma {:induction false} ValBound(s: seq<u32>)
    ensures Val(s) < Radix(|s|)
  {
    if |s| == 0 {
    } else {
      ValBound(s[1..]);
    }
  }

  lemma {:induction false} ValZero(s: seq<u32>)
    requires forall i :: 0 <= i < |s| ==> s[i] == 0
    ensures Val(s) == 0
  {
    if |s| == 0 {
    } else {
      ValZero(s[1..]);
    }
  }

  lemma {:induction false} ValIsZero(s: seq<u32>)
    requires Val(s) == 0
    ensures forall i :: 0 <= i < |s| ==> s[i] == 0
  {
    if |s| == 0 {
    } else {
      ValIsZero(s[1..]);
      assert forall i :: 0 < i < |s| ==> s[i] == s[1..][i - 1];
    }
  }

  lemma ValUpdate(s: seq<u32>, j: nat, x: u32)
    requires j < |s|
    ensures Val(s[j := x]) == Val(s) + Radix(j) * (x - s[j])
  {
    var t := s[j := x];
    ValAround(s, j);
    ValAround(t, j);
    assert t[..j] == s[..j] && t[j + 1..] == s[j + 1..];
    var h := 0x1_0000_0000 * Val(s[j + 1..]);
    MulDist(Radix(j), s[j] + h, x - s[j]);
  }

  lemma MulDist(a: int, b: int, c: int)
    ensures a * (b + c) == a * b + a * c
  {}

  /** The first differing limb from the top decides the order. */
  lemma ValOrder(a: seq<u32>, b: seq<u32>, i: nat)
    requires |a| == |b| && i < |a| && a[i + 1..] == b[i + 1..] && a[i] < b[i]
    ensures Val(a) < Val(b)
  {
    ValAround(a, i);
    ValAround(b, i);
    ValBound(a[..i]);
    var h := 0x1_0000_0000 * Val(a[i + 1..]);
    MulMono(a[i] + h + 1, b[i] + h, Radix(i));
    MulDist(Radix(i), a[i] + h, 1);
    assert Radix(i) * (b[i] + h) == (b[i] + h) * Radix(i);
    assert Radix(i) * (a[i] + h + 1) == (a[i] + h + 1) * Radix(i);
  }

  lemma RadixNext(i: nat)
    ensures Radix(i + 1) == 0x1_0000_0000 * Radix(i)
  {}

  lemma {:induction false} RadixAdd(m: nat, n: nat)
    ensures Radix(m + n) == Radix(m) * Radix(n)
  {
    if m == 0 {
    } else {
      RadixAdd(m - 1, n);
      MulAssoc(0x1_0000_0000, Radix(m - 1), Radix(n));
    }
  }

  lemma {:induction false} RadixIsPow2(n: nat)
    ensures Radix(n) == Pow2(32 * n)
  {
    if n == 0 {
    } else {
      RadixIsPow2(n - 1);
      Pow2Wide();
      Pow2Add(32, 32 * (n - 1));
    }
  }

  lemma {:induction false} Radix8IsPow2(n: nat)
    ensures Radix8(n) == Pow2(8 * n)
  {
    if n == 0 {
    } else {
      Radix8IsPow2(n - 1);
      Pow2Values();
      Pow2Add(8, 8 * (n - 1));
    }
  }

  /** Dividing by the weight of a bit position inside limb q and taking k bits that do not
      leave the limb reads them from the limb. */
  lemma FieldAt(a: seq<u32>, q: nat, s: nat, k: nat)
    requires q < |a| && s + k <= 32
    ensures Val(a) / Pow2(32 * q + s) % Pow2(k) == a[q] / Pow2(s) % Pow2(k)
  {
    ValAround(a, q);
    ValBound(a[..q]);
    RadixIsPow2(q);
    var h := Val(a[q + 1..]);
    var w := a[q] + 0x1_0000_0000 * h;
    DivModUnique(Val(a), Radix(q), w, Val(a[..q])) by {
      assert Radix(q) * w == w * Radix(q);
    }
    Pow2Add(32 * q, s);
    DivDiv(Val(a), Radix(q), Pow2(s));
    assert Val(a) / Pow2(32 * q + s) == w / Pow2(s);
    FieldOfWord(a[q], h, s, k);
  }

  lemma FieldOfWord(x: nat, h: nat, s: nat, k: nat)
    requires s + k <= 32
    ensures (x + 0x1_0000_0000 * h) / Pow2(s) % Pow2(k) == x / Pow2(s) % Pow2(k)
  {
    hide Pow2;
    var e := 32 - s - k;
    var p, r, t := Pow2(s), Pow2(k), Pow2(e);
    Pow2Wide();
    Pow2Add(s, k);
    Pow2Add(s + k, e);
    assert 0x1_0000_0000 == (p * r) * t;
    ThreeFactors(p, r, t, h);
    assert 0x1_0000_0000 * h == ((t * h) * r) * p;
    ModAddMul(x, (t * h) * r, p);
    ModAddMul(x / p, t * h, r);
  }

  lemma ThreeFactors(p: int, r: int, t: int, h: int)
    ensures ((p * r) * t) * h == ((t * h) * r) * p
  {
    assert ((p * r) * t) * h == (p * r) * (t * h);
    assert (p * r) * (t * h) == p * (r * (t * h));
  }

  // ---------------------------------------------------------------- bytes

  lemma {:induction false} BeValBound(be: seq<u8>)
    ensures BeVal(be) < Radix8(|be|)
  {
    if |be| == 0 {
    } else {
      BeValBound(be[..|be| - 1]);
    }
  }

  lemma {:induction false} BeValAppend(s: seq<u8>, t: seq<u8>)
    ensures BeVal(s + t) == BeVal(s) * Radix8(|t|) + BeVal(t)
  {
    if |t| == 0 {
      assert s + t == s;
    } else {
      var t' := t[..|t| - 1];
      assert (s + t)[..|s + t| - 1] == s + t';
      BeValAppend(s, t');
      assert BeVal(s) * Radix8(|t'|) * 256 == BeVal(s) * (256 * Radix8(|t'|));
    }
  }

  /** One more byte in front. */
  lemma BeValFront(be: seq<u8>, k: nat)
    requires 0 < k <= |be|
    ensures BeVal(be[k - 1..]) == be[k - 1] * Radix8(|be| - k) + BeVal(be[k..])
  {
    assert be[k - 1..] == [be[k - 1]] + be[k..];
    BeValAppend([be[k - 1]], be[k..]);
    assert [be[k - 1]][..0] == [];
    assert BeVal([be[k - 1]]) == be[k - 1];
  }

  lemma {:induction false} IntToBytesAt(v: nat, n: nat, i: nat)
    requires i < n
    ensures IntToBytes(v, n)[i] == v / Radix8(n - 1 - i) % 256
  {
    if i == n - 1 {
    } else {
      IntToBytesAt(v / 256, n - 1, i);
      DivDiv(v, 256, Radix8(n - 2 - i));
    }
  }

  lemma ByteMod(v: nat, r: nat)
    requires r > 0
    ensures v % (256 * r) == (v / 256 % r) * 256 + v % 256
  {
    var w := v / 256;
    assert w == (w / r) * r + w % r;
    assert (w / r) * (256 * r) == 256 * ((w / r) * r);
    DivModUnique(v, 256 * r, w / r, 256 * (w % r) + v % 256);
  }

  lemma {:induction false} BeValOfBytes(v: nat, n: nat)
    ensures BeVal(IntToBytes(v, n)) == v % Radix8(n)
  {
    if n == 0 {
    } else {
      BeValOfBytes(v / 256, n - 1);
      var b := IntToBytes(v / 256, n - 1);
      assert (b + [v % 256])[..n - 1] == b;
      ByteMod(v, Radix8(n - 1));
    }
  }

  lemma {:induction false} BytesOfBeVal(be: seq<u8>)
    ensures IntToBytes(BeVal(be), |be|) == be
  {
    if |be| == 0 {
    } else {
      var p := be[..|be| - 1];
      BytesOfBeVal(p);
      assert be == p + [be[|be| - 1]];
    }
  }

  /** The byte of a number that lies in a limb. */
  lemma ByteOfLimb(a: seq<u32>, src: nat)
    requires src / 4 < |a|
    ensures Val(a) / Radix8(src) % 256 == a[src / 4] / Pow2(8 * (src % 4)) % 256
  {
    Radix8IsPow2(src);
    Pow2Values();
    assert 8 * src == 32 * (src / 4) + 8 * (src % 4);
    FieldAt(a, src / 4, 8 * (src % 4), 8);
  }

  lemma ByteBeyond(a: seq<u32>, src: nat)
    requires src / 4 >= |a|
    ensures Val(a) / Radix8(src) % 256 == 0
  {
    hide Val, Radix, Radix8, Pow2;
    ValBound(a);
    RadixIsPow2(|a|);
    Radix8IsPow2(src);
    Pow2Add(32 * |a|, 8 * src - 32 * |a|);
    MulMono(1, Pow2(8 * src - 32 * |a|), Pow2(32 * |a|));
    assert Val(a) < Radix8(src);
    DivModUnique(Val(a), Radix8(src), 0, Val(a));
  }

  lemma Radix8Limb(i: nat)
    ensures Radix8(i) == Pow2(8 * (i % 4)) * Radix(i / 4)
  {
    Radix8IsPow2(i);
    RadixIsPow2(i / 4);
    assert 8 * i == 8 * (i % 4) + 32 * (i / 4);
    Pow2Add(8 * (i % 4), 32 * (i / 4));
  }
}
