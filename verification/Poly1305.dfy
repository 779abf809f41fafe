/** poly1305_ctx and its operations. */
module Poly1305 {
  import opened Words
  import opened LittleEndian
  import opened Poly1305Limbs
  import opened Poly1305Spec

  class Ctx {
    const r: array<u32>
    const h: array<u32>
    const pad: array<u32>
    const buf: array<u8>
    var bufUsed: nat
    var final: bool

    ghost predicate Shape()
      reads this
    {
      && r.Length == 5 && h.Length == 5 && pad.Length == 4 && buf.Length == 16
      && r != h && r != pad && h != pad && bufUsed <= 16
    }

    /** The limbs of r and the pad hold the two halves of the key. */
    ghost predicate Keyed(key: seq<u8>)
      requires |key| == 32
      reads this, r, pad
    {
      && Shape() && Clamped(r[..]) && HVal(r[..]) == KeyR(key)
      && pad[0] as int + 0x1_0000_0000 * pad[1] as int + 0x1_0000_0000_0000_0000 * pad[2] as int
         + 0x1_0000_0000_0000_0000_0000_0000 * pad[3] as int == KeyS(key)
    }

    /** h holds the accumulator of the whole blocks of data and buf the bytes after them. */
    ghost predicate Holds(key: seq<u8>, data: seq<u8>)
      requires |key| == 32
      reads this, r, h, pad, buf
    {
      && Keyed(key) && !final
      && Lazy(h[..]) && Cong(HVal(h[..]), Blocks(data, |data| / 16, KeyR(key)), P)
      && bufUsed == |data| % 16 && buf[..bufUsed] == data[16 * (|data| / 16)..]
    }

    constructor ()
      ensures Shape() && fresh(r) && fresh(h) && fresh(pad) && fresh(buf)
    {
      r, h, pad, buf := new u32[5], new u32[5], new u32[4], new u8[16];
      bufUsed, final := 0, false;
    }

    /** poly1305_init. */
    method Init(key: array<u8>)
      requires Shape() && key.Length == 32 && key != buf
      modifies this, r, h, pad
      ensures Holds(key[..], [])
    {
      hide Clamped, Lazy, HVal, KeyR, KeyS, Cong, Blocks;
      LoadR(key);
      ClearH();
      LoadPad(key);
      bufUsed, final := 0, false;
      Start(h[..], KeyR(key[..]));
    }

    method ClearH()
      requires Shape()
      modifies h
      ensures h[..] == [0, 0, 0, 0, 0]
    {
      for i := 0 to 5
        modifies h
        invariant forall k :: 0 <= k < i ==> h[k] == 0
      {
        h[i] := 0;
      }
    }

    method LoadR(key: array<u8>)
      requires Shape() && key.Length == 32
      modifies r
      ensures Clamped(r[..]) && HVal(r[..]) == KeyR(key[..])
    {
      hide And, LeVal, Straddle1, Straddle2, Straddle3, Load32, HVal;
      ghost var k := key[..];
      var t0, t1, t2, t3 := Load32(key[..], 0), Load32(key[..], 4), Load32(key[..], 8), Load32(key[..], 12);
      AndBound(t0, 0x3FF_FFFF);
      AndBound(Straddle1(t0, t1), 0x3FF_FF03);
      AndBound(Straddle2(t1, t2), 0x3FF_C0FF);
      AndBound(Straddle3(t2, t3), 0x3F0_3FFF);
      AndBound(Shr(t3, 8), 0xF_FFFF);
      r[0] := And(t0, 0x3FF_FFFF);
      r[1] := And(Straddle1(t0, t1), 0x3FF_FF03);
      r[2] := And(Straddle2(t1, t2), 0x3FF_C0FF);
      r[3] := And(Straddle3(t2, t3), 0x3F0_3FFF);
      r[4] := And(Shr(t3, 8), 0xF_FFFF);
      ClampLimbs(t0, t1, t2, t3);
      KeyWords(k, 0);
      HValIs(r[..]);
    }

    method LoadPad(key: array<u8>)
      requires Shape() && key.Length == 32
      modifies pad
      ensures pad[0] as int + 0x1_0000_0000 * pad[1] as int + 0x1_0000_0000_0000_0000 * pad[2] as int
              + 0x1_0000_0000_0000_0000_0000_0000 * pad[3] as int == KeyS(key[..])
    {
      hide LeVal, Load32;
      pad[0] := Load32(key[..], 16);
      pad[1] := Load32(key[..], 20);
      pad[2] := Load32(key[..], 24);
      pad[3] := Load32(key[..], 28);
      assert key[..][16..] == key[..][16..16 + 16];
      KeyWords(key[..], 16);
    }

    /** The five columns of the product of h, with a block added, and r. */
    method Columns(t0: u32, t1: u32, t2: u32, t3: u32, hibit: u32) returns (d0: u64, d1: u64, d2: u64, d3: u64, d4: u64)
      requires Shape() && Clamped(r[..]) && Lazy(h[..]) && (hibit == 0 || hibit == 0x100_0000)
      ensures
        var f := FedLimbs(h[..], t0, t1, t2, t3, hibit);
        d0 == D0(f, r[..]) && d1 == D1(f, r[..]) && d2 == D2(f, r[..]) && d3 == D3(f, r[..]) && d4 == D4(f, r[..])
    {
      hide Prod, HVal, Lo26, Straddle1, Straddle2, Straddle3, Or32, Shr;
      ghost var x, y := h[..], r[..];
      ghost var f := FedLimbs(x, t0, t1, t2, t3, hibit);
      FedValue(x, t0, t1, t2, t3, hibit);
      ColumnBounds(f, y);
      var h0: u32, h1: u32, h2: u32 := h[0] + Lo26(t0), h[1] + Lo26(Straddle1(t0, t1)), h[2] + Lo26(Straddle2(t1, t2));
      var h3: u32, h4: u32 := h[3] + Lo26(Straddle3(t2, t3)), h[4] + Or32(Shr(t3, 8), hibit);
      var s1: u32, s2: u32, s3: u32, s4: u32 := 5 * r[1], 5 * r[2], 5 * r[3], 5 * r[4];
      d0 := Prod(h0, r[0]) + Prod(h1, s4) + Prod(h2, s3) + Prod(h3, s2) + Prod(h4, s1);
      d1 := Prod(h0, r[1]) + Prod(h1, r[0]) + Prod(h2, s4) + Prod(h3, s3) + Prod(h4, s2);
      d2 := Prod(h0, r[2]) + Prod(h1, r[1]) + Prod(h2, r[0]) + Prod(h3, s4) + Prod(h4, s3);
      d3 := Prod(h0, r[3]) + Prod(h1, r[2]) + Prod(h2, r[1]) + Prod(h3, r[0]) + Prod(h4, s4);
      d4 := Prod(h0, r[4]) + Prod(h1, r[3]) + Prod(h2, r[2]) + Prod(h3, r[1]) + Prod(h4, r[0]);
    }

    /** The carry chain of poly1305_block. */
    method CarryColumns(d0: u64, d1: u64, d2: u64, d3: u64, d4: u64)
      requires Shape()
      requires d0 <= 21 * 0x20_0001_0000_0000 && d1 <= 17 * 0x20_0001_0000_0000 && d2 <= 13 * 0x20_0001_0000_0000
      requires d3 <= 9 * 0x20_0001_0000_0000 && d4 <= 5 * 0x20_0001_0000_0000
      modifies h
      ensures Lazy(h[..]) && Cong(HVal(h[..]), Val26(d0, d1, d2, d3, d4), P)
    {
      hide Hi26, Lo26, Val26, Cong;
      Cut26(d0);
      var c0: u32, h0: u32 := Hi26(d0), Lo26(d0);
      var e1: u64 := d1 + c0;
      Cut26(e1);
      var c1: u32, h1: u32 := Hi26(e1), Lo26(e1);
      var e2: u64 := d2 + c1;
      Cut26(e2);
      var c2: u32, h2: u32 := Hi26(e2), Lo26(e2);
      var e3: u64 := d3 + c2;
      Cut26(e3);
      var c3: u32, h3: u32 := Hi26(e3), Lo26(e3);
      var e4: u64 := d4 + c3;
      Cut26(e4);
      var c4: u32, h4: u32 := Hi26(e4), Lo26(e4);
      var w: u32 := h0 + c4 * 5;
      Cut26(w);
      var c5: u32 := Hi26(w);
      h[0], h[1], h[2], h[3], h[4] := Lo26(w), h1 + c5, h2, h3, h4;
      CarryValue(d0, d1, d2, d3, d4, c0, c1, c2, c3, c4, c5, h0, h1, h2, h3, h4, h[0], h[1]);
    }

    /** poly1305_block. The low 26 bits of a column survive its cast to 32 bits. */
    method Block(src: array<u8>, off: nat, ghost key: seq<u8>, ghost a: int)
      requires |key| == 32 && Keyed(key) && off + 16 <= src.Length
      requires Lazy(h[..]) && Cong(HVal(h[..]), a, P)
      modifies h
      ensures Lazy(h[..])
      ensures Cong(HVal(h[..]), Mixed(a, src[off..off + 16], if final then 0 else TWO128, KeyR(key)), P)
    {
      hide Clamped, Lazy, Fed, HVal, KeyR, KeyS, Cong, LeVal, Load32, FedLimbs, Mixed, D0, D1, D2, D3, D4;
      ghost var block := src[off..off + 16];
      var hibit: u32 := if final then 0 else 0x100_0000;
      var t0, t1 := Load32(src[off..off + 16], 0), Load32(src[off..off + 16], 4);
      var t2, t3 := Load32(src[off..off + 16], 8), Load32(src[off..off + 16], 12);
      ghost var x, y := h[..], r[..];
      FedValue(x, t0, t1, t2, t3, hibit);
      BlockWords(block);
      var d0, d1, d2, d3, d4 := Columns(t0, t1, t2, t3, hibit);
      ghost var f := FedLimbs(x, t0, t1, t2, t3, hibit);
      ColumnBounds(f, y);
      ColumnsCong(f, y);
      CarryColumns(d0, d1, d2, d3, d4);
      CongTrans(HVal(h[..]), Val26(d0, d1, d2, d3, d4), HVal(f) * HVal(y), P);
      MixedCong(HVal(h[..]), HVal(f), HVal(x), a, block, if final then 0 else TWO128, KeyR(key));
    }

    /** h holds the accumulator of the first n blocks of data. */
    ghost predicate Done(key: seq<u8>, data: seq<u8>, n: nat)
      requires |key| == 32
      reads this, r, h, pad
    {
      && Keyed(key) && !final && Lazy(h[..])
      && 16 * n <= |data| && Cong(HVal(h[..]), Blocks(data, n, KeyR(key)), P)
    }

    /** One whole block of data, read from src. */
    method Take(src: array<u8>, off: nat, ghost key: seq<u8>, ghost data: seq<u8>, ghost n: nat)
      requires |key| == 32 && Done(key, data, n)
      requires off + 16 <= src.Length && 16 * (n + 1) <= |data| && src[off..off + 16] == data[16 * n..16 * (n + 1)]
      modifies h
      ensures Done(key, data, n + 1)
    {
      hide Clamped, Lazy, HVal, KeyR, KeyS, Cong, LeVal, Mixed, Blocks;
      NextBlock(data, n, KeyR(key));
      Block(src, off, key, Blocks(data, n, KeyR(key)));
    }

    /** What poly1305_update leaves absorbed: bytes waiting in buf are lost unless the call fills it. */
    static function After(data: seq<u8>, m: seq<u8>): seq<u8> {
      if |data| % 16 == 0 || |data| % 16 + |m| >= 16 then data + m else data[..16 * (|data| / 16)]
    }

    /** poly1305_update. */
    method Update(m: array<u8>, ghost key: seq<u8>, ghost data: seq<u8>)
      requires |key| == 32 && Holds(key, data) && m != buf
      modifies this`bufUsed, h, buf
      ensures Holds(key, After(data, m[..]))
    {
      ghost var all := After(data, m[..]);
      var off := FillBuf(m, key, data);
      off := WholeBlocks(m, off, key, all, (|all| - (m.Length - off)) / 16);
      KeepRest(m, off, key, all);
    }

    method WholeBlocks(m: array<u8>, start: nat, ghost key: seq<u8>, ghost all: seq<u8>, ghost first: nat) returns (off: nat)
      requires |key| == 32 && Done(key, all, first) && start <= m.Length
      requires 16 * first <= |all| && m[start..] == all[16 * first..]
      modifies h
      ensures off <= m.Length && m.Length - off < 16
      ensures Done(key, all, |all| / 16) && m[off..] == all[16 * (|all| / 16)..]
    {
      hide Clamped, Lazy, HVal, KeyR, KeyS, Cong, Blocks;
      off := start;
      ghost var n: nat := first;
      while m.Length - off >= 16
        modifies h
        invariant off <= m.Length && Done(key, all, n)
        invariant m[off..] == all[16 * n..]
      {
        assert |m[off..]| == |all[16 * n..]|;
        assert m[off..off + 16] == m[off..][..16] && all[16 * n..16 * (n + 1)] == all[16 * n..][..16];
        Take(m, off, key, all, n);
        assert m[off + 16..] == m[off..][16..] && all[16 * (n + 1)..] == all[16 * n..][16..];
        off, n := off + 16, n + 1;
      }
      assert |m[off..]| == |all[16 * n..]|;
    }

    method KeepRest(m: array<u8>, off: nat, ghost key: seq<u8>, ghost all: seq<u8>)
      requires |key| == 32 && m != buf && off <= m.Length && m.Length - off < 16
      requires Done(key, all, |all| / 16) && m[off..] == all[16 * (|all| / 16)..]
      modifies this`bufUsed, buf
      ensures Holds(key, all)
    {
      hide Clamped, Lazy, HVal, KeyR, KeyS, Cong, Blocks;
      assert |m[off..]| == |all[16 * (|all| / 16)..]|;
      CopyIn(m, off, 0, m.Length - off);
      bufUsed := m.Length - off;
      assert buf[..bufUsed] == m[off..];
    }

    /** The byte loops of poly1305_update: n bytes of m into buf. */
    method CopyIn(m: array<u8>, off: nat, at: nat, n: nat)
      requires buf.Length == 16 && m != buf && off + n <= m.Length && at + n <= 16
      modifies buf
      ensures forall k :: 0 <= k < at ==> buf[k] == old(buf[k])
      ensures forall k :: at <= k < at + n ==> buf[k] == m[k - at + off]
    {
      for i := 0 to n
        modifies buf
        invariant forall k :: 0 <= k < at ==> buf[k] == old(buf[k])
        invariant forall k :: at <= k < at + i ==> buf[k] == m[k - at + off]
      {
        buf[at + i] := m[off + i];
      }
    }

    /** The first part of poly1305_update: top up buf, and take it when it is full. */
    method FillBuf(m: array<u8>, ghost key: seq<u8>, ghost data: seq<u8>) returns (off: nat)
      requires |key| == 32 && Holds(key, data) && m != buf
      modifies this`bufUsed, h, buf
      ensures off <= m.Length
      ensures
        var all := After(data, m[..]);
        var n := |all| - (m.Length - off);
        n >= 0 && n % 16 == 0 && Done(key, all, n / 16) && m[off..] == all[n..]
    {
      hide Clamped, Lazy, HVal, KeyR, KeyS, Cong, Blocks;
      off := 0;
      ghost var n := |data| / 16;
      ghost var all := After(data, m[..]);
      BlocksPrefix(data, all, n, KeyR(key));
      assert Done(key, all, n);
      if bufUsed != 0 {
        var want := 16 - bufUsed;
        if want > m.Length { want := m.Length; }
        CopyIn(m, 0, bufUsed, want);
        bufUsed := bufUsed + want;
        off := want;
        assert Done(key, all, n);
        if bufUsed == 16 {
          assert buf[0..0 + 16] == buf[..];
          FilledBlock(buf[..], data, m[..], n, want);
          Take(buf, 0, key, all, n);
          bufUsed := 0;
          assert m[..][off..] == m[off..];
        } else {
          assert all == data[..16 * n] && off == m.Length;
        }
      } else {
        assert m[off..] == all[16 * n..];
      }
    }

    /** The short last block, padded with a one byte and zeros. */
    method LastBlock(ghost key: seq<u8>, ghost data: seq<u8>)
      requires |key| == 32 && Holds(key, data)
      modifies this, h, buf
      ensures Keyed(key) && Lazy(h[..]) && Cong(HVal(h[..]), Accumulate(data, KeyR(key)), P)
    {
      hide Clamped, Lazy, HVal, KeyR, KeyS, Cong, Blocks, Mixed;
      if bufUsed != 0 {
        ghost var n := |data| / 16;
        ghost var rest := data[16 * n..];
        ghost var used := bufUsed;
        buf[bufUsed] := 1;
        bufUsed := bufUsed + 1;
        while bufUsed < 16
          modifies this`bufUsed, buf
          invariant used < bufUsed <= 16 && Done(key, data, n)
          invariant forall k :: 0 <= k < used ==> buf[k] == rest[k]
          invariant buf[used] == 1 && forall k :: used < k < bufUsed ==> buf[k] == 0
        {
          buf[bufUsed] := 0;
          bufUsed := bufUsed + 1;
        }
        final := true;
        assert buf[0..0 + 16] == buf[..];
        PaddedBlock(buf[..], rest, Blocks(data, n, KeyR(key)), KeyR(key));
        Block(buf, 0, key, Blocks(data, n, KeyR(key)));
      }
    }

    /** poly1305_finish: the tag of the data. */
    method Finish(out: array<u8>, ghost key: seq<u8>, ghost data: seq<u8>)
      requires |key| == 32 && Holds(key, data) && out.Length == 16
      modifies this, h, buf, out
      ensures LeVal(out[..]) == Tag(key, data)
    {
      hide Clamped, Lazy, HVal, KeyR, KeyS, Cong, LeVal, Accumulate, Val26, Blocks, Mixed, Pow2;
      LastBlock(key, data);
      var h0, h1, h2, h3, h4 := Residue(Accumulate(data, KeyR(key)));
      AccumulateRange(data, KeyR(key));
      AddAndStore(out, h0, h1, h2, h3, h4);
    }

    /** The final carries and the conditional subtraction: the residue below the prime. */
    method Residue(ghost a: int) returns (h0: u32, h1: u32, h2: u32, h3: u32, h4: u32)
      requires h.Length == 5 && Lazy(h[..]) && Cong(HVal(h[..]), a, P)
      ensures h0 < 0x400_0000 && h1 < 0x400_0000 && h2 < 0x400_0000 && h3 < 0x400_0000 && h4 < 0x400_0000
      ensures 0 <= a < P ==> Val26(h0, h1, h2, h3, h4) == a
    {
      assert h[..] == [h[0], h[1], h[2], h[3], h[4]];
      h0, h1, h2, h3, h4 := LastCarry(h[0], h[1], h[2], h[3], h[4]);
      ghost var v := Val26(h0, h1, h2, h3, h4);
      h0, h1, h2, h3, h4 := Subtract(h0, h1, h2, h3, h4);
      if 0 <= a < P {
        IsAccumulator(Val26(h0, h1, h2, h3, h4), v, HVal(h[..]), a);
      }
      hide Cong, Val26;
    }

    /** The tail of poly1305_finish: four words, the pad added, stored. */
    method AddAndStore(out: array<u8>, h0: u32, h1: u32, h2: u32, h3: u32, h4: u32)
      requires Shape() && out.Length == 16
      requires h0 < 0x400_0000 && h1 < 0x400_0000 && h2 < 0x400_0000 && h3 < 0x400_0000 && h4 < 0x400_0000
      modifies out
      ensures LeVal(out[..]) == (Val26(h0, h1, h2, h3, h4)
                                 + (pad[0] as int + 0x1_0000_0000 * pad[1] as int + 0x1_0000_0000_0000_0000 * pad[2] as int
                                    + 0x1_0000_0000_0000_0000_0000_0000 * pad[3] as int)) % TWO128
    {
      hide Or32, Shl32, Shr, LeVal, Val26;
      var f0, f1 := Or32(h0, Shl32(h1, 26)), Or32(Shr(h1, 6), Shl32(h2, 20));
      var f2, f3 := Or32(Shr(h2, 12), Shl32(h3, 14)), Or32(Shr(h3, 18), Shl32(h4, 8));
      Repack(h0, h1, h2, h3, h4);
      var o0, o1, o2, o3 := AddWords(f0, f1, f2, f3, pad[0], pad[1], pad[2], pad[3], Val26(h0, h1, h2, h3, h4), h4 as int / 0x100_0000);
      StoreWords(out, o0, o1, o2, o3);
    }
  }

  /** The canonical residue of the limbs is the accumulator. */
  lemma IsAccumulator(w: int, v: int, h: int, a: int)
    requires w == v % P && Cong(v, h, P) && Cong(h, a, P) && 0 <= a < P
    ensures w == a
  {
    DivModUnique(a, P, 0, a);
  }

  lemma AccumulateRange(msg: seq<u8>, r: int)
    ensures 0 <= Accumulate(msg, r) < P
  {}

  /** A second call keeps every byte exactly when nothing waits in buf or the call fills it. */
  lemma UpdateKeepsAllIff(data: seq<u8>, m: seq<u8>)
    ensures Ctx.After(data, m) == data + m <==> |data| % 16 == 0 || |data| % 16 + |m| >= 16
    ensures Ctx.After([1], [2]) == [] && Accumulate([], 1) != Accumulate([1, 2], 1)
  {
    var lost := Ctx.After(data, m);
    assert |data + m| == |data| + |m|;
    if lost == data + m && |data| % 16 != 0 {
      assert |lost| >= |data|;
    }
    TwoBytes();
  }

  lemma TwoBytes()
    ensures Accumulate([], 1) == 0 && Accumulate([1, 2], 1) == 0x1_0201
  {
    var b: seq<u8> := [1, 2];
    assert b[0..] == b;
    assert LeFrom(b, 2) == 0;
    assert LeFrom(b, 1) == 2;
    assert LeVal(b) == 0x201;
    Pow2Wide();
    assert Blocks(b, 0, 1) == 0;
    SmallMod(0x1_0201);
    hide LeVal, LeFrom, Pow2;
  }

  lemma SmallMod(x: nat)
    requires x < P
    ensures x * 1 % P == x
  {
    DivModUnique(x, P, 0, x);
  }

  lemma FilledBlock(b: seq<u8>, data: seq<u8>, m: seq<u8>, n: nat, want: nat)
    requires |b| == 16 && 16 * n <= |data| && |data| - 16 * n + want == 16 && want <= |m|
    requires forall k :: 16 * n <= k < |data| ==> b[k - 16 * n] == data[k]
    requires forall k :: 16 - want <= k < 16 ==> b[k] == m[k - (16 - want)]
    ensures b == (data + m)[16 * n..16 * (n + 1)]
    ensures m[want..] == (data + m)[16 * (n + 1)..]
  {}

  lemma NextBlock(data: seq<u8>, n: nat, r: int)
    requires 16 * (n + 1) <= |data|
    ensures Blocks(data, n + 1, r) == Mixed(Blocks(data, n, r), data[16 * n..16 * (n + 1)], TWO128, r)
  {
    Pow2Wide();
    Pow2Sum(64, 64, 128, M64, M64);
    hide Mixed, Pow2;
  }

  lemma BlockWords(b: seq<u8>)
    requires |b| == 16
    ensures LeVal(b) == Load32(b, 0) + 0x1_0000_0000 * Load32(b, 4) + 0x1_0000_0000_0000_0000 * Load32(b, 8)
                        + 0x1_0000_0000_0000_0000_0000_0000 * Load32(b, 12)
  {
    hide LeVal, Load32;
    assert b[0..0 + 16] == b;
    KeyWords(b, 0);
  }

  lemma MixedCong(v: int, f: int, x: int, a: int, block: seq<u8>, extra: int, r: int)
    requires Cong(v, f * r, P) && f == x + LeVal(block) + extra && Cong(x, a, P)
    ensures Cong(v, Mixed(a, block, extra, r), P)
  {
    hide Cong, LeVal;
    var b := LeVal(block) + extra;
    CongRefl(b, P);
    CongAdd(x, a, b, b, P);
    CongRefl(r, P);
    CongMul(x + b, a + b, r, r, P);
    CongTrans(v, f * r, (a + b) * r, P);
    CongMod((a + b) * r, P);
    CongTrans((a + b) * r % P, (a + b) * r, v, P);
  }

  lemma Start(h: seq<u32>, r: int)
    requires h == [0, 0, 0, 0, 0]
    ensures Lazy(h) && Cong(HVal(h), Blocks([], 0, r), P)
  {}

  lemma HValIs(h: seq<u32>)
    requires |h| == 5
    ensures HVal(h) == Val26(h[0], h[1], h[2], h[3], h[4])
  {}

  lemma KeyWords(k: seq<u8>, i: nat)
    requires i + 16 <= |k|
    ensures LeVal(k[i..i + 16]) == Load32(k, i) + 0x1_0000_0000 * Load32(k, i + 4) + 0x1_0000_0000_0000_0000 * Load32(k, i + 8)
                                   + 0x1_0000_0000_0000_0000_0000_0000 * Load32(k, i + 12)
  {
    var b := k[i..i + 16];
    LeSixteen(b, 0);
    LeEnd(b);
    hide LeFrom;
  }

  /** A short block with a one byte after it, as a number. */
  lemma {:induction false} PaddedFrom(b: seq<u8>, rest: seq<u8>, i: nat)
    requires |rest| < |b| && i <= |rest|
    requires forall k :: 0 <= k < |rest| ==> b[k] == rest[k]
    requires b[|rest|] == 1 && forall k :: |rest| < k < |b| ==> b[k] == 0
    ensures LeFrom(b, i) == LeFrom(rest, i) + Pow2(8 * (|rest| - i))
    decreases |rest| - i
  {
    if i == |rest| {
      Zeros(b, i + 1);
      Pow2Values();
    } else {
      PaddedFrom(b, rest, i + 1);
      Pow2Values();
      Pow2Sum(8, 8 * (|rest| - i - 1), 8 * (|rest| - i), 0x100, Pow2(8 * (|rest| - i - 1)));
    }
  }

  lemma {:induction false} Zeros(b: seq<u8>, i: nat)
    requires i <= |b| && forall k :: i <= k < |b| ==> b[k] == 0
    ensures LeFrom(b, i) == 0
    decreases |b| - i
  {
    if i < |b| {
      Zeros(b, i + 1);
    }
  }

  lemma PaddedBlock(b: seq<u8>, rest: seq<u8>, a: int, r: int)
    requires |rest| < |b|
    requires forall k :: 0 <= k < |rest| ==> b[k] == rest[k]
    requires b[|rest|] == 1 && forall k :: |rest| < k < |b| ==> b[k] == 0
    ensures Mixed(a, b, 0, r) == Absorb(a, rest, r)
  {
    PaddedFrom(b, rest, 0);
    hide LeFrom, Pow2;
  }

  /** The final carry pass of poly1305_finish. */
  method LastCarry(x0: u32, x1: u32, x2: u32, x3: u32, x4: u32) returns (h0: u32, h1: u32, h2: u32, h3: u32, h4: u32)
    requires Lazy([x0, x1, x2, x3, x4])
    ensures h0 < 0x400_0000 && h1 < 0x400_0000 && h2 < 0x400_0000 && h3 < 0x400_0000 && h4 < 0x400_0000
    ensures Cong(Val26(h0, h1, h2, h3, h4), HVal([x0, x1, x2, x3, x4]), P)
  {
    hide Hi26, Lo26, Val26, HVal, Cong;
    Cut26(x1);
    var c: u32 := Hi26(x1);
    ghost var c1 := c;
    h1 := Lo26(x1);
    h2 := x2 + c;
    Cut26(h2);
    c := Hi26(h2);
    ghost var c2 := c;
    h2 := Lo26(h2);
    h3 := x3 + c;
    Cut26(h3);
    c := Hi26(h3);
    ghost var c3 := c;
    h3 := Lo26(h3);
    h4 := x4 + c;
    Cut26(h4);
    c := Hi26(h4);
    ghost var c4 := c;
    h4 := Lo26(h4);
    h0 := x0 + c * 5;
    Cut26(h0);
    c := Hi26(h0);
    h0 := Lo26(h0);
    LastPass([x0, x1, x2, x3, x4], c1, c2, c3, c4, c, h1, h2, h3, h4, h0, h1 + c);
    h1 := h1 + c;
  }

  /** A difference of 32-bit words, wrapping below zero. */
  function Sub32(x: u32, y: u32): u32 {
    if x >= y then x - y else x + 0x1_0000_0000 - y
  }

  /** (g4 >> 31) - 1: all ones unless g4 went negative. */
  lemma BorrowMask(g4: u32)
    ensures Shr(g4, 31) <= 1 && (Shr(g4, 31) == 1 <==> g4 >= 0x8000_0000)
    ensures Sub32(Shr(g4, 31), 1) == if g4 >= 0x8000_0000 then 0 else 0xFFFF_FFFF
  {
    Pow2Words();
    hide Pow2;
  }

  /** The select between h and h - p at the end of poly1305_finish. */
  method Subtract(x0: u32, x1: u32, x2: u32, x3: u32, x4: u32) returns (h0: u32, h1: u32, h2: u32, h3: u32, h4: u32)
    requires x0 < 0x400_0000 && x1 < 0x400_0000 && x2 < 0x400_0000 && x3 < 0x400_0000 && x4 < 0x400_0000
    ensures h0 < 0x400_0000 && h1 < 0x400_0000 && h2 < 0x400_0000 && h3 < 0x400_0000 && h4 < 0x400_0000
    ensures Val26(h0, h1, h2, h3, h4) == Val26(x0, x1, x2, x3, x4) % P
  {
    hide Hi26, Lo26, Val26, And, Or, Shr;
    var g0: u32 := x0 + 5;
    Cut26(g0);
    var c: u32 := Hi26(g0);
    ghost var c0 := c;
    g0 := Lo26(g0);
    var g1: u32 := x1 + c;
    Cut26(g1);
    c := Hi26(g1);
    ghost var c1 := c;
    g1 := Lo26(g1);
    var g2: u32 := x2 + c;
    Cut26(g2);
    c := Hi26(g2);
    ghost var c2 := c;
    g2 := Lo26(g2);
    var g3: u32 := x3 + c;
    Cut26(g3);
    c := Hi26(g3);
    g3 := Lo26(g3);
    Canonical(x0, x1, x2, x3, x4, c0, c1, c2, c, g0, g1, g2, g3, x4 + c - 0x400_0000);
    var g4 := Sub32(x4 + c, 0x400_0000);
    BorrowMask(g4);
    var mask := Sub32(Shr(g4, 31), 1);
    h0, h1 := SelectWord(x0, g0, mask), SelectWord(x1, g1, mask);
    h2, h3, h4 := SelectWord(x2, g2, mask), SelectWord(x3, g3, mask), SelectWord(x4, g4, mask);
  }

  /** (h & ~mask) | (g & mask). */
  function SelectWord(h: u32, g: u32, mask: u32): (w: u32)
    requires mask == 0 || mask == 0xFFFF_FFFF
    ensures w == if mask == 0 then h else g
  {
    SelectLimb(h, g);
    Or(And(h, 0xFFFF_FFFF - mask), And(g, mask))
  }

  /** f + pad in four 64-bit sums. */
  method AddWords(f0: u32, f1: u32, f2: u32, f3: u32, p0: u32, p1: u32, p2: u32, p3: u32, ghost v: int, ghost x: int)
    returns (o0: u32, o1: u32, o2: u32, o3: u32)
    requires f0 as int + 0x1_0000_0000 * f1 as int + 0x1_0000_0000_0000_0000 * f2 as int
             + 0x1_0000_0000_0000_0000_0000_0000 * f3 as int == v - x * TWO128
    ensures
      o0 as int + 0x1_0000_0000 * o1 as int + 0x1_0000_0000_0000_0000 * o2 as int + 0x1_0000_0000_0000_0000_0000_0000 * o3 as int
      == (v + (p0 as int + 0x1_0000_0000 * p1 as int + 0x1_0000_0000_0000_0000 * p2 as int
               + 0x1_0000_0000_0000_0000_0000_0000 * p3 as int)) % TWO128
  {
    var s0: u64 := f0 as int + p0;
    var s1: u64 := f1 as int + p1 + s0 / 0x1_0000_0000;
    var s2: u64 := f2 as int + p2 + s1 / 0x1_0000_0000;
    var s3: u64 := f3 as int + p3 + s2 / 0x1_0000_0000;
    o0, o1 := s0 % 0x1_0000_0000, s1 % 0x1_0000_0000;
    o2, o3 := s2 % 0x1_0000_0000, s3 % 0x1_0000_0000;
    AddPad(f0 as int + 0x1_0000_0000 * f1 as int + 0x1_0000_0000_0000_0000 * f2 as int + 0x1_0000_0000_0000_0000_0000_0000 * f3 as int,
           v, x,
           p0 as int + 0x1_0000_0000 * p1 as int + 0x1_0000_0000_0000_0000 * p2 as int + 0x1_0000_0000_0000_0000_0000_0000 * p3 as int,
           s0, s1, s2, s3, f0, f1, f2, f3, p0, p1, p2, p3, o0, o1, o2, o3,
           s0 / 0x1_0000_0000, s1 / 0x1_0000_0000, s2 / 0x1_0000_0000, s3 / 0x1_0000_0000);
  }

  /** store32_le. */
  method Store32(out: array<u8>, off: nat, v: u32)
    requires off + 4 <= out.Length
    modifies out
    ensures Word4(out[..], off) == v
    ensures forall k :: 0 <= k < out.Length && (k < off || off + 4 <= k) ==> out[k] == old(out[k])
  {
    hide ByteOf;
    BytesOf(v);
    out[off], out[off + 1] := ByteOf(v, 0), ByteOf(v, 1);
    out[off + 2], out[off + 3] := ByteOf(v, 2), ByteOf(v, 3);
  }

  lemma FourWords(b: seq<u8>)
    requires |b| == 16
    ensures LeVal(b) == Word4(b, 0) + 0x1_0000_0000 * Word4(b, 4) + 0x1_0000_0000_0000_0000 * Word4(b, 8)
                        + 0x1_0000_0000_0000_0000_0000_0000 * Word4(b, 12)
  {
    hide LeFrom;
    LeFour(b, 0);
    LeFour(b, 4);
    LeFour(b, 8);
    LeFour(b, 12);
    LeEnd(b);
  }

  method StoreWords(out: array<u8>, o0: u32, o1: u32, o2: u32, o3: u32)
    requires out.Length == 16
    modifies out
    ensures LeVal(out[..]) == o0 as int + 0x1_0000_0000 * o1 as int + 0x1_0000_0000_0000_0000 * o2 as int
                              + 0x1_0000_0000_0000_0000_0000_0000 * o3 as int
  {
    hide Word4, LeVal;
    Store32(out, 0, o0);
    ghost var w0 := out[..];
    Store32(out, 4, o1);
    ghost var w1 := out[..];
    Store32(out, 8, o2);
    ghost var w2 := out[..];
    Store32(out, 12, o3);
    Word4Same(w0, out[..], 0);
    Word4Same(w1, out[..], 4);
    Word4Same(w2, out[..], 8);
    FourWords(out[..]);
  }

  lemma AfterNothing(m: seq<u8>)
    ensures Ctx.After([], m) == m
  {
    assert [] + m == m;
  }

  /** poly1305_mac: for every key and message, the tag of section 2.5.1 of RFC 8439. */
  method Mac(out: array<u8>, msg: array<u8>, key: array<u8>)
    requires out.Length == 16 && key.Length == 32
    modifies out
    ensures LeVal(out[..]) == old(Tag(key[..], msg[..]))
  {
    AfterNothing(msg[..]);
    hide LeVal, Tag, Ctx.Holds, Ctx.After;
    ghost var k, m := key[..], msg[..];
    var st := new Ctx();
    st.Init(key);
    st.Update(msg, k, []);
    st.Finish(out, k, m);
  }
}
