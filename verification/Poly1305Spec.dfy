/** The one-time authenticator of section 2.5.1 of RFC 8439, as integer arithmetic. */
module Poly1305Spec {
  import opened Words
  import opened LittleEndian
  import opened Poly1305Limbs

  function KeyR(key: seq<u8>): nat
    requires |key| == 32
  {
    And(LeVal(key[..16]), CLAMP)
  }

  function KeyS(key: seq<u8>): nat
    requires |key| == 32
  {
    LeVal(key[16..])
  }

  /** One block and its extra bit, multiplied in. */
  function Mixed(a: int, block: seq<u8>, extra: int, r: int): int {
    (a + LeVal(block) + extra) * r % P
  }

  /** One block with the one bit just past its end, multiplied in. */
  function Absorb(a: int, block: seq<u8>, r: int): int {
    Mixed(a, block, Pow2(8 * |block|), r)
  }

  /** The accumulator after the first n whole blocks. */
  function Blocks(msg: seq<u8>, n: nat, r: int): int
    requires 16 * n <= |msg|
  {
    if n == 0 then 0 else Absorb(Blocks(msg, n - 1, r), msg[16 * (n - 1)..16 * n], r)
  }

  /** The accumulator after the whole message, the last block being short. */
  function Accumulate(msg: seq<u8>, r: int): int {
    var n := |msg| / 16;
    if |msg| % 16 == 0 then Blocks(msg, n, r) else Absorb(Blocks(msg, n, r), msg[16 * n..], r)
  }

  function Tag(key: seq<u8>, msg: seq<u8>): int
    requires |key| == 32
  {
    (Accumulate(msg, KeyR(key)) + KeyS(key)) % TWO128
  }

  /** Blocks already taken do not see what follows them. */
  lemma {:induction false} BlocksPrefix(a: seq<u8>, b: seq<u8>, n: nat, r: int)
    requires 16 * n <= |a| && 16 * n <= |b| && a[..16 * n] == b[..16 * n]
    ensures Blocks(a, n, r) == Blocks(b, n, r)
  {
    if n > 0 {
      assert a[..16 * (n - 1)] == a[..16 * n][..16 * (n - 1)];
      assert b[..16 * (n - 1)] == b[..16 * n][..16 * (n - 1)];
      assert a[16 * (n - 1)..16 * n] == a[..16 * n][16 * (n - 1)..];
      assert b[16 * (n - 1)..16 * n] == b[..16 * n][16 * (n - 1)..];
      BlocksPrefix(a, b, n - 1, r);
    }
  }
}
