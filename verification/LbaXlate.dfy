/** The slot's bounce buffer and the two translated operations. */
module LbaXlate {
  import opened Words
  import opened LbaXlateSpec

  /** The native device: an operation succeeds exactly when all its blocks exist. */
  class Native {
    var blocks: Device

    constructor (d: Device)
      ensures blocks == d
    {
      blocks := d;
    }

    method Read(lba: u64, count: nat, buf: array<u8>) returns (ok: bool)
      requires DeviceOk(blocks) && 4096 * count <= buf.Length
      modifies buf
      ensures ok == (lba + count <= |blocks|)
      ensures ok ==> HasBlocks(buf[..], blocks, lba, count)
      ensures forall k :: (if ok then 4096 * count else 0) <= k < buf.Length ==> buf[k] == old(buf[k])
    {
      if lba + count > |blocks| { return false; }
      NoBlocks(buf[..], blocks, lba);
      hide HasBlocks;
      for b := 0 to count
        modifies buf
        invariant HasBlocks(buf[..], blocks, lba, b)
        invariant forall k :: 4096 * b <= k < buf.Length ==> buf[k] == old(buf[k])
      {
        ghost var before := buf[..];
        CopyIn(buf, 4096 * b, blocks[lba + b]);
        MoreBlocks(before, buf[..], blocks, lba, b);
      }
      ok := true;
    }

    method Write(lba: u64, count: nat, data: seq<u8>) returns (ok: bool)
      requires DeviceOk(blocks) && 4096 * count <= |data|
      modifies this
      ensures ok == (lba + count <= |old(blocks)|)
      ensures blocks == if ok then Overwrite(old(blocks), lba, count, data) else old(blocks)
    {
      if lba + count > |blocks| { return false; }
      blocks := Overwrite(blocks, lba, count, data);
      ok := true;
    }
  }

  /** bytes copied over buf from off on. */
  method CopyIn(buf: array<u8>, off: nat, bytes: seq<u8>)
    requires off + |bytes| <= buf.Length
    modifies buf
    ensures buf[off..off + |bytes|] == bytes
    ensures buf[..off] == old(buf[..off]) && buf[off + |bytes|..] == old(buf[off + |bytes|..])
    ensures forall k :: 0 <= k < buf.Length && (k < off || off + |bytes| <= k) ==> buf[k] == old(buf[k])
  {
    for i := 0 to |bytes|
      modifies buf
      invariant forall k :: off <= k < off + i ==> buf[k] == bytes[k - off]
      invariant forall k :: 0 <= k < buf.Length && (k < off || off + i <= k) ==> buf[k] == old(buf[k])
    {
      buf[off + i] := bytes[i];
    }
  }

  /** Both paths succeed exactly on a request that is on the device; an empty request that is not
      aligned never asks the device. */
  predicate Succeeds(d: Device, lba: nat, count: nat) {
    InRange(d, lba, count) || (count == 0 && SliceOf(lba) != 0)
  }

  predicate Aligned(lba: nat, count: nat) {
    SliceOf(lba) == 0 && SliceOf(count) == 0
  }

  /** The sectors of a failed write that reach the device: none on the fast path, those before the
      end of the device on the slow one. */
  function Landed(d: Device, lba: nat, count: nat): (n: nat)
    ensures !InRange(d, lba, count) ==> n <= count
  {
    if Aligned(lba, count) || lba >= 8 * |d| then 0 else 8 * |d| - lba
  }

  class Slot {
    const native: Native
    const bounce: array<u8>

    constructor (device: Native)
      ensures native == device && fresh(bounce) && bounce.Length == 4096
    {
      native := device;
      bounce := new u8[4096];
    }

    /** xlate_read. */
    method Read(fsLba: u64, count: u32, buf: array<u8>) returns (ok: bool)
      requires DeviceOk(native.blocks) && bounce.Length == 4096 && buf != bounce && 512 * count <= buf.Length
      modifies buf, bounce
      ensures ok == Succeeds(native.blocks, fsLba, count)
      ensures ok ==> InRange(native.blocks, fsLba, count) || count == 0
      ensures ok ==> forall i :: 0 <= i < count ==> ReadAt(native.blocks, buf[..], fsLba, i)
      ensures forall k :: 512 * count <= k < buf.Length ==> buf[k] == old(buf[k])
    {
      SliceZero();
      hide Piece, Sector, BlockOf, SliceOf, ReadAt, HasBlocks, DeviceOk;
      if SliceOf(fsLba) == 0 && SliceOf(count) == 0 {
        ok := ReadFast(fsLba, count, buf);
      } else {
        ok := ReadSlow(fsLba, count, buf);
      }
    }

    /** Whole native blocks, straight into the buffer. */
    method ReadFast(fsLba: u64, count: u32, buf: array<u8>) returns (ok: bool)
      requires DeviceOk(native.blocks) && 512 * count <= buf.Length && Aligned(fsLba, count)
      modifies buf
      ensures ok == InRange(native.blocks, fsLba, count)
      ensures ok ==> forall i :: 0 <= i < count ==> ReadAt(native.blocks, buf[..], fsLba, i)
      ensures forall k :: 512 * count <= k < buf.Length ==> buf[k] == old(buf[k])
    {
      hide BlockOf, SliceOf, ReadAt, HasBlocks, DeviceOk, Aligned, InRange;
      AlignedRange(native.blocks, fsLba, count);
      ok := native.Read(BlockOf(fsLba), BlockOf(count), buf);
      if ok {
        AlignedRead(native.blocks, buf[..], fsLba, count);
      }
    }

    /** The loop over the bounce buffer. */
    method ReadSlow(fsLba: u64, count: u32, buf: array<u8>) returns (ok: bool)
      requires DeviceOk(native.blocks) && bounce.Length == 4096 && buf != bounce && 512 * count <= buf.Length
      modifies buf, bounce
      ensures ok == (count == 0 || InRange(native.blocks, fsLba, count))
      ensures ok ==> forall i :: 0 <= i < count ==> ReadAt(native.blocks, buf[..], fsLba, i)
      ensures forall k :: 512 * count <= k < buf.Length ==> buf[k] == old(buf[k])
    {
      ghost var d := native.blocks;
      hide Piece, Sector, BlockOf, SliceOf, ReadAt, HasBlocks;
      var lba: nat, left: nat, n: nat := fsLba, count, 0;
      while left != 0
        modifies buf, bounce
        invariant n + left == count && lba == fsLba + n && (n > 0 ==> InRange(d, fsLba, n))
        invariant forall i :: 0 <= i < n ==> ReadAt(d, buf[..], fsLba, i)
        invariant forall k :: 512 * count <= k < buf.Length ==> buf[k] == old(buf[k])
        decreases left
      {
        Place(lba, |d|);
        ok := native.Read(BlockOf(lba), 1, bounce);
        if !ok { return; }
        ghost var before := buf[..];
        CopyIn(buf, 512 * n, Piece(bounce[..], SliceOf(lba)));
        ReadStep(d, before, buf[..], bounce[..], fsLba, n);
        lba, left, n := lba + 1, left - 1, n + 1;
      }
      ok := true;
    }

    /** xlate_write. */
    method Write(fsLba: u64, count: u32, data: seq<u8>) returns (ok: bool)
      requires DeviceOk(native.blocks) && bounce.Length == 4096 && 512 * count <= |data|
      modifies native, bounce
      ensures ok == Succeeds(old(native.blocks), fsLba, count)
      ensures ok ==> Wrote(old(native.blocks), native.blocks, fsLba, count, data)
      ensures !ok ==> Wrote(old(native.blocks), native.blocks, fsLba, Landed(old(native.blocks), fsLba, count), data)
    {
      SliceZero();
      hide Wrote, Piece, Sector, BlockOf, SliceOf, Overwrite, DeviceOk;
      if SliceOf(fsLba) == 0 && SliceOf(count) == 0 {
        ok := WriteFast(fsLba, count, data);
      } else {
        ok := WriteSlow(fsLba, count, data);
      }
    }

    /** Whole native blocks, straight from the buffer. */
    method WriteFast(fsLba: u64, count: u32, data: seq<u8>) returns (ok: bool)
      requires DeviceOk(native.blocks) && 512 * count <= |data| && Aligned(fsLba, count)
      modifies native
      ensures ok == InRange(old(native.blocks), fsLba, count)
      ensures Wrote(old(native.blocks), native.blocks, fsLba, if ok then count else 0, data)
    {
      hide Wrote, BlockOf, SliceOf, Overwrite, DeviceOk, Aligned, InRange;
      ghost var d := native.blocks;
      AlignedRange(d, fsLba, count);
      WroteNothing(d, fsLba, data);
      ok := native.Write(BlockOf(fsLba), BlockOf(count), data);
      if ok {
        OverwriteWrote(d, BlockOf(fsLba), BlockOf(count), data);
      }
    }

    /** The read-modify-write loop. */
    method WriteSlow(fsLba: u64, count: u32, data: seq<u8>) returns (ok: bool)
      requires DeviceOk(native.blocks) && bounce.Length == 4096 && 512 * count <= |data|
      requires !Aligned(fsLba, count)
      modifies native, bounce
      ensures ok == (count == 0 || InRange(old(native.blocks), fsLba, count))
      ensures ok ==> Wrote(old(native.blocks), native.blocks, fsLba, count, data)
      ensures !ok ==> Wrote(old(native.blocks), native.blocks, fsLba, Landed(old(native.blocks), fsLba, count), data)
    {
      ghost var d := native.blocks;
      WroteNothing(d, fsLba, data);
      hide Wrote, Piece, Rewrite, DeviceOk, Aligned;
      var lba: nat, left: nat, n: nat := fsLba, count, 0;
      while left != 0
        modifies native, bounce
        invariant n + left == count && lba == fsLba + n && (n > 0 ==> InRange(d, fsLba, n))
        invariant DeviceOk(native.blocks) && |native.blocks| == |d| && Wrote(d, native.blocks, fsLba, n, data)
        decreases left
      {
        ghost var e := native.blocks;
        ok := RewriteOne(lba, Piece(data, n));
        if !ok { return; }
        WroteStep(d, e, fsLba, n, data);
        lba, left, n := lba + 1, left - 1, n + 1;
      }
      ok := true;
    }

    /** One block read into the bounce buffer, patched and written back. */
    method RewriteOne(lba: u64, s: seq<u8>) returns (ok: bool)
      requires DeviceOk(native.blocks) && bounce.Length == 4096 && |s| == 512
      modifies native, bounce
      ensures ok == (lba < 8 * |old(native.blocks)|) && DeviceOk(native.blocks)
      ensures native.blocks == if ok then Rewrite(old(native.blocks), lba, s) else old(native.blocks)
    {
      ghost var e := native.blocks;
      Place(lba, |e|);
      hide BlockOf, SliceOf, Patched, Rewrite, Overwrite, HasBlocks;
      ok := native.Read(BlockOf(lba), 1, bounce);
      if !ok { return; }
      Bounced(e, bounce[..], lba, s);
      CopyIn(bounce, 512 * SliceOf(lba), s);
      PatchedIs(e[BlockOf(lba)], bounce[..], SliceOf(lba), s);
      RewriteIs(e, lba, s, bounce[..]);
      ok := native.Write(BlockOf(lba), 1, bounce[..]);
    }
  }

  lemma MoreBlocks(before: seq<u8>, after: seq<u8>, d: Device, lba: nat, n: nat)
    requires |before| == |after| && HasBlocks(before, d, lba, n) && lba + n < |d| && 4096 * (n + 1) <= |after|
    requires after[..4096 * n] == before[..4096 * n] && |d[lba + n]| == 4096
    requires after[4096 * n..4096 * n + |d[lba + n]|] == d[lba + n]
    ensures HasBlocks(after, d, lba, n + 1)
  {
    forall j | 0 <= j < n + 1 ensures BlockIn(after, j) == d[lba + j] {
      if j < n {
        assert BlockIn(before, j) == d[lba + j];
        assert BlockIn(after, j) == after[..4096 * n][4096 * j..4096 * (j + 1)];
        assert BlockIn(before, j) == before[..4096 * n][4096 * j..4096 * (j + 1)];
      }
    }
  }

  lemma NoBlocks(b: seq<u8>, d: Device, lba: nat)
    ensures lba <= |d| ==> HasBlocks(b, d, lba, 0)
  {}

  lemma RewriteIs(e: Device, i: nat, s: seq<u8>, block: seq<u8>)
    requires DeviceOk(e) && i < 8 * |e| && |s| == 512 && BlockOf(i) < |e| && |block| == 4096
    requires block == Patched(e[BlockOf(i)], SliceOf(i), s)
    ensures Overwrite(e, BlockOf(i), 1, block) == Rewrite(e, i, s)
  {
    hide Patched, BlockOf, SliceOf;
    assert BlockIn(block, 0) == block;
  }

  /** Sector i of the request is in its place in the buffer. */
  predicate ReadAt(d: Device, b: seq<u8>, lba: nat, i: nat) {
    DeviceOk(d) && lba + i < 8 * |d| && 512 * (i + 1) <= |b| && Piece(b, i) == Sector(d, lba + i)
  }

  /** A native read of whole blocks reads their sectors. */
  lemma AlignedRead(d: Device, b: seq<u8>, lba: nat, count: nat)
    requires DeviceOk(d) && Aligned(lba, count) && HasBlocks(b, d, BlockOf(lba), BlockOf(count))
    ensures forall i :: 0 <= i < count ==> ReadAt(d, b, lba, i)
  {
    hide ReadAt, HasBlocks, DeviceOk, BlockOf, SliceOf;
    Place(lba, 0);
    Place(count, 0);
    forall i | 0 <= i < count ensures ReadAt(d, b, lba, i) {
      AlignedAt(d, b, BlockOf(lba), BlockOf(count), i);
    }
  }

  lemma AlignedRange(d: Device, lba: nat, count: nat)
    requires Aligned(lba, count)
    ensures InRange(d, lba, count) <==> BlockOf(lba) + BlockOf(count) <= |d|
    ensures BlockOf(lba) <= lba && 512 * count == 4096 * BlockOf(count)
    ensures lba == 8 * BlockOf(lba) && count == 8 * BlockOf(count)
  {
    hide BlockOf, SliceOf;
    Place(lba, 0);
    Place(count, 0);
  }

  lemma SliceZero()
    ensures SliceOf(0) == 0
  {}

  lemma AlignedAt(d: Device, b: seq<u8>, lba: nat, count: nat, i: nat)
    requires DeviceOk(d) && HasBlocks(b, d, lba, count) && i < 8 * count
    ensures ReadAt(d, b, 8 * lba, i)
  {
    hide Piece, BlockOf, SliceOf, DeviceOk;
    Place(i, count);
    var j, k := BlockOf(i), SliceOf(i);
    assert BlockIn(b, j) == d[lba + j];
    AlignedPiece(d, b, lba, j, k);
  }

  lemma AlignedPiece(d: Device, b: seq<u8>, lba: nat, j: nat, k: nat)
    requires DeviceOk(d) && lba + j < |d| && k < 8 && 4096 * (j + 1) <= |b|
    requires BlockIn(b, j) == d[lba + j]
    ensures ReadAt(d, b, 8 * lba, 8 * j + k)
  {
    hide Piece, BlockOf, SliceOf;
    FlatIs(lba + j, k);
    PieceOfBlock(b, j, k);
  }

  lemma ReadStep(d: Device, before: seq<u8>, after: seq<u8>, bounce: seq<u8>, lba: nat, n: nat)
    requires DeviceOk(d) && |before| == |after| && 512 * (n + 1) <= |after| && lba + n < 8 * |d|
    requires |bounce| == 4096 && BlockOf(lba + n) < |d| && HasBlocks(bounce, d, BlockOf(lba + n), 1)
    requires after[512 * n..512 * n + 512] == Piece(bounce, SliceOf(lba + n))
    requires after[..512 * n] == before[..512 * n]
    requires forall i :: 0 <= i < n ==> ReadAt(d, before, lba, i)
    ensures forall i :: 0 <= i < n + 1 ==> ReadAt(d, after, lba, i)
  {
    assert BlockIn(bounce, 0) == bounce;
    forall i | 0 <= i < n + 1 ensures ReadAt(d, after, lba, i) {
      if i < n {
        assert ReadAt(d, before, lba, i);
        assert Piece(after, i) == after[..512 * n][512 * i..512 * (i + 1)];
      }
    }
    hide BlockOf, SliceOf;
  }

  lemma Bounced(e: Device, bounce: seq<u8>, lba: nat, s: seq<u8>)
    requires |bounce| == 4096 && BlockOf(lba) < |e| && HasBlocks(bounce, e, BlockOf(lba), 1)
    ensures bounce == e[BlockOf(lba)]
  {
    assert BlockIn(bounce, 0) == bounce;
  }

  lemma PatchedIs(was: seq<u8>, now: seq<u8>, k: nat, s: seq<u8>)
    requires |was| == |now| == 4096 && k < 8 && |s| == 512
    requires now[512 * k..512 * k + 512] == s
    requires now[..512 * k] == was[..512 * k] && now[512 * k + 512..] == was[512 * k + 512..]
    ensures now == Patched(was, k, s)
  {
    assert now == now[..512 * k] + now[512 * k..512 * k + 512] + now[512 * k + 512..];
  }
}
