/** RSASSA-PKCS1-v1_5 signature verification with SHA-256 (sections 8.2.2 and 9.2 of RFC 8017)
    as in kernel/rsa.c, with 64 limbs, and kernel/bignum_4k.c, with 128. */
module Rsa {
  import opened Words
  import opened BigNat
  import opened Bignum

  const RSA_LIMBS := 64
  const RSA4K_LIMBS := 128

  /** The DER prefix of a SHA-256 DigestInfo. */
  const DIGEST_PREFIX: seq<u8> := [0x30, 0x31, 0x30, 0x0d, 0x06, 0x09,
                                   0x60, 0x86, 0x48, 0x01, 0x65, 0x03, 0x04, 0x02, 0x01,
                                   0x05, 0x00, 0x04, 0x20]

  function Ones(k: nat): (s: seq<u8>)
    ensures |s| == k
  {
    seq(k, _ => 0xFF)
  }

  /** EMSA-PKCS1-v1_5 of a hash in n bytes: 00 01 FF .. FF 00 DigestInfo. */
  function Emsa(hash: seq<u8>, n: nat): (em: seq<u8>)
    requires |hash| == 32 && n >= 62
    ensures |em| == n
  {
    [0x00, 0x01] + Ones(n - 54) + [0x00] + DIGEST_PREFIX + hash
  }

  lemma EmsaAt(hash: seq<u8>, n: nat)
    requires |hash| == 32 && n >= 62
    ensures
      var em := Emsa(hash, n);
      && em[0] == 0 && em[1] == 1 && em[n - 52] == 0
      && (forall i :: 2 <= i < n - 52 ==> em[i] == 0xFF)
      && (forall i :: 0 <= i < 19 ==> em[n - 51 + i] == DIGEST_PREFIX[i])
      && (forall i :: 0 <= i < 32 ==> em[n - 32 + i] == hash[i])
  {}

  /** The encoded message is the one with these fields. */
  lemma EmsaFrom(em: seq<u8>, hash: seq<u8>, n: nat)
    requires |hash| == 32 && n >= 62 && |em| == n
    requires em[0] == 0 && em[1] == 1 && em[n - 52] == 0
    requires forall i :: 2 <= i < n - 52 ==> em[i] == 0xFF
    requires forall i :: 0 <= i < 19 ==> em[n - 51 + i] == DIGEST_PREFIX[i]
    requires forall i :: 0 <= i < 32 ==> em[n - 32 + i] == hash[i]
    ensures em == Emsa(hash, n)
  {
    hide Emsa;
    var e := Emsa(hash, n);
    EmsaAt(hash, n);
    forall i | 0 <= i < n ensures em[i] == e[i] {
      if 2 <= i < n - 52 {
      } else if n - 51 <= i < n - 32 {
        var k := i - (n - 51);
        assert em[n - 51 + k] == DIGEST_PREFIX[k] && e[n - 51 + k] == DIGEST_PREFIX[k];
      } else if n - 32 <= i {
        var k := i - (n - 32);
        assert em[n - 32 + k] == hash[k] && e[n - 32 + k] == hash[k];
      }
    }
  }

  /** Skip the run of FF from position 2. */
  method SkipOnes(em: array<u8>, n: nat) returns (p: nat)
    requires 2 <= n <= em.Length
    ensures 2 <= p <= n && (p < n ==> em[p] != 0xFF)
    ensures forall i :: 2 <= i < p ==> em[i] == 0xFF
  {
    p := 2;
    while p < n && em[p] == 0xFF
      invariant 2 <= p <= n
      invariant forall i :: 2 <= i < p ==> em[i] == 0xFF
    {
      p := p + 1;
    }
  }

  method SamePrefix(em: array<u8>, p: nat) returns (same: bool)
    requires p + 19 <= em.Length
    ensures same == forall i :: 0 <= i < 19 ==> em[p + i] == DIGEST_PREFIX[i]
  {
    for i := 0 to 19
      invariant forall k :: 0 <= k < i ==> em[p + k] == DIGEST_PREFIX[k]
    {
      if em[p + i] != DIGEST_PREFIX[i] { return false; }
    }
    return true;
  }

  /** The branch-free comparison: differences are or-ed together. */
  method SameHash(em: array<u8>, p: nat, hash: seq<u8>) returns (same: bool)
    requires p + 32 <= em.Length && |hash| == 32
    ensures same == forall i :: 0 <= i < 32 ==> em[p + i] == hash[i]
  {
    var diff: u8 := 0;
    for i := 0 to 32
      invariant diff == 0 <==> forall k :: 0 <= k < i ==> em[p + k] == hash[k]
    {
      Pow2Values();
      XorBound(em[p + i], hash[i], 8);
      OrBound(diff, Xor(em[p + i], hash[i]), 8);
      XorZero(em[p + i], hash[i]);
      OrZero(diff, Xor(em[p + i], hash[i]));
      diff := Or(diff, Xor(em[p + i], hash[i]));
    }
    return diff == 0;
  }

  /** The scan over the decrypted block accepts exactly the one encoding. */
  method CheckPadding(em: array<u8>, n: nat, hash: seq<u8>) returns (ok: bool)
    requires 62 <= n <= em.Length && |hash| == 32
    ensures ok <==> em[..n] == Emsa(hash, n)
  {
    hide Emsa;
    EmsaAt(hash, n);
    if em[0] != 0x00 || em[1] != 0x01 { return false; }
    var p := SkipOnes(em, n);
    assert em[n - 52] == em[..n][n - 52] && (p < n ==> em[p] == em[..n][p]);
    assert em[..n] == Emsa(hash, n) ==> p == n - 52;
    if p < 10 || p >= n { return false; }
    if em[p] != 0x00 { return false; }
    p := p + 1;
    if n - p != 19 + 32 { return false; }
    var same := SamePrefix(em, p);
    if !same {
      PrefixDiffers(em[..n], hash, n);
      return false;
    }
    p := p + 19;
    ok := SameHash(em, p, hash);
    if ok {
      EmsaFrom(em[..n], hash, n);
    } else {
      HashDiffers(em[..n], hash, n);
    }
  }

  lemma PrefixDiffers(em: seq<u8>, hash: seq<u8>, n: nat)
    requires |hash| == 32 && n >= 62 && |em| == n
    requires !forall i :: 0 <= i < 19 ==> em[n - 51 + i] == DIGEST_PREFIX[i]
    ensures em != Emsa(hash, n)
  {
    EmsaAt(hash, n);
  }

  lemma HashDiffers(em: seq<u8>, hash: seq<u8>, n: nat)
    requires |hash| == 32 && n >= 62 && |em| == n
    requires !forall i :: 0 <= i < 32 ==> em[n - 32 + i] == hash[i]
    ensures em != Emsa(hash, n)
  {
    EmsaAt(hash, n);
  }

  // ---------------------------------------------------------------- verification

  /** What makes a signature acceptable: it is a residue below the modulus, and its power is
      the encoded message.  An exponent too long for the number keeps its low bytes. */
  predicate Accepts(limbs: nat, n: seq<u8>, e: seq<u8>, sig: seq<u8>, hash: seq<u8>)
    requires |hash| == 32
  {
    && 62 <= |n| <= 4 * limbs && |sig| == |n| && BeVal(sig) < BeVal(n)
    && IntToBytes(Pow(BeVal(sig), BeVal(e) % Radix(limbs)) % BeVal(n), |n|) == Emsa(hash, |n|)
  }

  /** The hash of the message is an input; everything else is the source's. */
  method Verify(limbs: nat, n: seq<u8>, e: seq<u8>, sig: seq<u8>, hash: seq<u8>) returns (ok: bool)
    requires limbs > 0 && |hash| == 32
    ensures ok <==> Accepts(limbs, n, e, sig, hash)
  {
    hide BeVal, IntToBytes, Emsa, Radix, Val, Pow, ModExpSpec, Modulus;
    if |n| == 0 || |n| > 4 * limbs { return false; }
    if |sig| != |n| { return false; }
    var mod, exp, s, r := new u32[limbs], new u32[limbs], new u32[limbs], new u32[limbs];
    FromBe(mod, n);
    FromBe(exp, e);
    FromBe(s, sig);
    Fits(n, limbs);
    Fits(sig, limbs);
    var c := Cmp(s, mod);
    if c >= 0 { return false; }
    ModExp(r, s, exp, mod);
    var em := new u8[4 * limbs];
    ToBe(em, |n|, r);
    if |n| < 11 + 19 + 32 { return false; }
    ok := CheckPadding(em, |n|, hash);
    PowerOrSmall(BeVal(sig), BeVal(e) % Radix(limbs), BeVal(n), limbs, |n|, hash);
  }

  /** rsa_pkcs1_v15_sha256_verify: moduli of up to 2048 bits. */
  method Verify2k(n: seq<u8>, e: seq<u8>, sig: seq<u8>, hash: seq<u8>) returns (ok: bool)
    requires |hash| == 32
    ensures ok <==> Accepts(RSA_LIMBS, n, e, sig, hash)
  {
    ok := Verify(RSA_LIMBS, n, e, sig, hash);
  }

  /** rsa4k_pkcs1_v15_sha256_verify: moduli of up to 4096 bits. */
  method Verify4k(n: seq<u8>, e: seq<u8>, sig: seq<u8>, hash: seq<u8>) returns (ok: bool)
    requires |hash| == 32
    ensures ok <==> Accepts(RSA4K_LIMBS, n, e, sig, hash)
  {
    ok := Verify(RSA4K_LIMBS, n, e, sig, hash);
  }

  /** On every modulus and exponent both admit, the two copies of the code give the same verdict. */
  lemma CopiesAgree(n: seq<u8>, e: seq<u8>, sig: seq<u8>, hash: seq<u8>)
    requires |hash| == 32 && |n| <= 4 * RSA_LIMBS && |e| <= 4 * RSA_LIMBS
    ensures Accepts(RSA_LIMBS, n, e, sig, hash) <==> Accepts(RSA4K_LIMBS, n, e, sig, hash)
  {
    Fits(e, RSA_LIMBS);
    Fits(e, RSA4K_LIMBS);
    hide BeVal, Radix, Pow, IntToBytes, Emsa;
  }

  lemma Fits(be: seq<u8>, limbs: nat)
    requires |be| <= 4 * limbs
    ensures BeVal(be) % Radix(limbs) == BeVal(be)
  {
    hide BeVal;
    BeValBound(be);
    Radix8Whole(limbs);
    Radix8Mono(|be|, 4 * limbs);
    DivModUnique(BeVal(be), Radix(limbs), 0, BeVal(be));
  }

  lemma {:induction false} Radix8Mono(a: nat, b: nat)
    requires a <= b
    ensures Radix8(a) <= Radix8(b)
    decreases b
  {
    if a < b {
      Radix8Mono(a, b - 1);
    }
  }

  /** The one case in which bn_modexp is not the power modulo n, an exponent of 0 with modulus
      1, makes no difference here: neither 0 nor 1 encodes a message. */
  lemma PowerOrSmall(s: nat, e: nat, n: nat, limbs: nat, len: nat, hash: seq<u8>)
    requires s < n && len >= 62 && |hash| == 32
    ensures IntToBytes(ModExpSpec(s, e, Modulus(n, Radix(limbs))), len) == Emsa(hash, len)
      <==> IntToBytes(Pow(s, e) % n, len) == Emsa(hash, len)
  {
    hide IntToBytes, Emsa, Pow, Radix;
    ModExpExact(s, e, n);
    if e == 0 && n == 1 {
      SmallIsNotEncoded(1, len, hash);
      SmallIsNotEncoded(Pow(s, e) % n, len, hash);
    }
  }

  lemma SmallIsNotEncoded(v: nat, len: nat, hash: seq<u8>)
    requires v <= 1 && len >= 62 && |hash| == 32
    ensures IntToBytes(v, len) != Emsa(hash, len)
  {
    hide IntToBytes, Emsa;
    EmsaAt(hash, len);
    IntToBytesAt(v, len, 1);
    Radix8Mono(1, len - 2);
    DivModUnique(v, Radix8(len - 2), 0, v);
  }

  /** In numbers: a signature is accepted iff s^e is congruent, modulo n, to the encoded
      message read as an integer, and that integer is below n (RSAVP1, section 5.2.2). */
  lemma AcceptsIffCongruent(limbs: nat, n: seq<u8>, e: seq<u8>, sig: seq<u8>, hash: seq<u8>)
    requires |hash| == 32 && 62 <= |n| <= 4 * limbs && |sig| == |n| && |e| <= 4 * limbs
    requires BeVal(sig) < BeVal(n)
    ensures
      var m := BeVal(Emsa(hash, |n|));
      Accepts(limbs, n, e, sig, hash) <==> m < BeVal(n) && Cong(Pow(BeVal(sig), BeVal(e)), m, BeVal(n))
  {
    hide BeVal, IntToBytes, Emsa, Radix, Radix8, Pow;
    Fits(e, limbs);
    var v, em := Pow(BeVal(sig), BeVal(e)) % BeVal(n), Emsa(hash, |n|);
    var m := BeVal(em);
    BeValBound(n);
    BeValOfBytes(v, |n|);
    DivModUnique(v, Radix8(|n|), 0, v);
    BytesOfBeVal(em);
    ModRange(Pow(BeVal(sig), BeVal(e)), BeVal(n));
    assert IntToBytes(v, |n|) == em <==> v == m;
    if m < BeVal(n) {
      DivModUnique(m, BeVal(n), 0, m);
    }
  }
}
