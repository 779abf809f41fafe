/** kernel/lba_xlate.c: 512-byte sectors on a device of 4096-byte blocks, eight to a block, for a
    slot whose native size is 4096. */
module LbaXlateSpec {
  import opened Words

  type Device = seq<seq<u8>>

  predicate DeviceOk(d: Device) {
    (forall i :: 0 <= i < |d| ==> |d[i]| == 4096) && 8 * |d| < 0x1_0000_0000_0000_0000
  }

  /** Sector k of a run of bytes. */
  function Piece(b: seq<u8>, k: nat): (r: seq<u8>)
    requires 512 * (k + 1) <= |b|
    ensures |r| == 512
  {
    b[512 * k..512 * (k + 1)]
  }

  /** Native block j of a run of bytes. */
  function BlockIn(b: seq<u8>, j: nat): (r: seq<u8>)
    requires 4096 * (j + 1) <= |b|
    ensures |r| == 4096
  {
    b[4096 * j..4096 * (j + 1)]
  }

  /** The bytes start with the native blocks from lba on. */
  predicate HasBlocks(b: seq<u8>, d: Device, lba: nat, count: nat) {
    lba + count <= |d| && 4096 * count <= |b| && forall j :: 0 <= j < count ==> BlockIn(b, j) == d[lba + j]
  }

  /** Where sector i is: the native block and the sector in it. */
  function BlockOf(i: nat): nat {
    i / 8
  }

  function SliceOf(i: nat): (r: nat)
    ensures r < 8
  {
    i % 8
  }

  lemma Place(i: nat, n: nat)
    ensures i == 8 * BlockOf(i) + SliceOf(i) && (i < 8 * n <==> BlockOf(i) < n)
  {}

  /** Sector i of the flat device. */
  function Sector(d: Device, i: nat): (r: seq<u8>)
    requires DeviceOk(d) && i < 8 * |d|
    ensures |r| == 512
  {
    Place(i, |d|);
    Piece(d[BlockOf(i)], SliceOf(i))
  }

  /** The whole request is on the device. */
  predicate InRange(d: Device, lba: nat, count: nat) {
    lba + count <= 8 * |d|
  }

  /** The sectors of a request hold the data and every other sector is as it was. */
  ghost predicate Wrote(d: Device, e: Device, lba: nat, count: nat, data: seq<u8>)
    requires DeviceOk(d) && |data| >= 512 * count
  {
    DeviceOk(e) && |e| == |d| && forall i :: 0 <= i < 8 * |d| ==> WroteAt(d, e, lba, count, data, i)
  }

  predicate WroteAt(d: Device, e: Device, lba: nat, count: nat, data: seq<u8>, i: nat)
    requires DeviceOk(d) && DeviceOk(e) && |e| == |d| && |data| >= 512 * count && i < 8 * |d|
  {
    Sector(e, i) == if lba <= i < lba + count then Piece(data, i - lba) else Sector(d, i)
  }

  /** The block with one of its sectors replaced: the bounce buffer after the copy. */
  function Patched(b: seq<u8>, k: nat, s: seq<u8>): (r: seq<u8>)
    requires |b| == 4096 && k < 8 && |s| == 512
    ensures |r| == 4096
  {
    b[..512 * k] + s + b[512 * (k + 1)..]
  }

  lemma PatchedPiece(b: seq<u8>, k: nat, s: seq<u8>, j: nat)
    requires |b| == 4096 && k < 8 && |s| == 512 && j < 8
    ensures Piece(Patched(b, k, s), j) == if j == k then s else Piece(b, j)
  {}

  lemma SectorsAreBlocks(b: seq<u8>, c: seq<u8>)
    requires |b| == |c| == 4096 && forall k :: 0 <= k < 8 ==> Piece(b, k) == Piece(c, k)
    ensures b == c
  {
    forall i | 0 <= i < 4096 ensures b[i] == c[i] {
      assert b[i] == Piece(b, i / 512)[i % 512] && c[i] == Piece(c, i / 512)[i % 512];
    }
  }

  lemma FlatIs(i: nat, k: nat)
    requires k < 8
    ensures BlockOf(8 * i + k) == i && SliceOf(8 * i + k) == k
  {}

  /** The flat sectors are the whole device. */
  lemma FlatDetermines(d: Device, e: Device)
    requires DeviceOk(d) && DeviceOk(e) && |d| == |e|
    requires forall i :: 0 <= i < 8 * |d| ==> Sector(d, i) == Sector(e, i)
    ensures d == e
  {
    forall i | 0 <= i < |d| ensures d[i] == e[i] {
      forall k | 0 <= k < 8 ensures Piece(d[i], k) == Piece(e[i], k) {
        FlatIs(i, k);
        assert Sector(d, 8 * i + k) == Sector(e, 8 * i + k);
      }
      SectorsAreBlocks(d[i], e[i]);
    }
  }

  /** What a write leaves is determined: the two paths cannot differ. */
  lemma WroteDetermines(d: Device, e: Device, f: Device, lba: nat, count: nat, data: seq<u8>)
    requires DeviceOk(d) && |data| >= 512 * count && Wrote(d, e, lba, count, data) && Wrote(d, f, lba, count, data)
    ensures e == f
  {
    forall i | 0 <= i < 8 * |d| ensures Sector(e, i) == Sector(f, i) {
      assert WroteAt(d, e, lba, count, data, i) && WroteAt(d, f, lba, count, data, i);
    }
    FlatDetermines(e, f);
  }

  /** The device after one read-modify-write. */
  function Rewrite(e: Device, i: nat, s: seq<u8>): (r: Device)
    requires DeviceOk(e) && i < 8 * |e| && |s| == 512
    ensures |r| == |e| && DeviceOk(r)
  {
    Place(i, |e|);
    e[BlockOf(i) := Patched(e[BlockOf(i)], SliceOf(i), s)]
  }

  lemma RewriteSector(e: Device, i: nat, s: seq<u8>, j: nat)
    requires DeviceOk(e) && i < 8 * |e| && |s| == 512 && j < 8 * |e|
    ensures Sector(Rewrite(e, i, s), j) == if j == i then s else Sector(e, j)
  {
    hide Piece, Patched, BlockOf, SliceOf;
    Place(i, |e|);
    Place(j, |e|);
    PatchedPiece(e[BlockOf(i)], SliceOf(i), s, SliceOf(j));
  }

  /** One read-modify-write of the slow path. */
  lemma WroteStep(d: Device, e: Device, lba: nat, n: nat, data: seq<u8>)
    requires DeviceOk(d) && |data| >= 512 * (n + 1) && Wrote(d, e, lba, n, data) && InRange(d, lba, n + 1)
    ensures Wrote(d, Rewrite(e, lba + n, Piece(data, n)), lba, n + 1, data)
  {
    hide Piece, Rewrite, Sector;
    var f, m := Rewrite(e, lba + n, Piece(data, n)), n + 1;
    forall i | 0 <= i < 8 * |d| ensures WroteAt(d, f, lba, m, data, i) {
      assert WroteAt(d, e, lba, n, data, i);
      RewriteSector(e, lba + n, Piece(data, n), i);
    }
  }

  lemma WroteNothing(d: Device, lba: nat, data: seq<u8>)
    requires DeviceOk(d)
    ensures Wrote(d, d, lba, 0, data)
  {
    hide Sector;
  }

  /** The native blocks of an aligned request, replaced. */
  function Overwrite(d: Device, lba: nat, count: nat, data: seq<u8>): (r: Device)
    requires lba + count <= |d| && |data| >= 4096 * count
    ensures |r| == |d|
  {
    seq(|d|, i requires 0 <= i < |d| => if lba <= i < lba + count then BlockIn(data, i - lba) else d[i])
  }

  /** The fast path writes what the slow path would. */
  lemma OverwriteWrote(d: Device, lba: nat, count: nat, data: seq<u8>)
    requires DeviceOk(d) && lba + count <= |d| && |data| >= 4096 * count
    ensures Wrote(d, Overwrite(d, lba, count, data), 8 * lba, 8 * count, data)
  {
    hide Piece, Sector, Overwrite, DeviceOk;
    OverwriteOk(d, lba, count, data);
    forall i | 0 <= i < 8 * |d| ensures WroteAt(d, Overwrite(d, lba, count, data), 8 * lba, 8 * count, data, i) {
      OverwriteAt(d, lba, count, data, i);
    }
  }

  lemma OverwriteOk(d: Device, lba: nat, count: nat, data: seq<u8>)
    requires DeviceOk(d) && lba + count <= |d| && |data| >= 4096 * count
    ensures DeviceOk(Overwrite(d, lba, count, data))
  {
    var e := Overwrite(d, lba, count, data);
    forall i | 0 <= i < |e| ensures |e[i]| == 4096 {
      if lba <= i < lba + count {
        assert e[i] == BlockIn(data, i - lba);
      }
    }
    hide BlockIn;
  }

  lemma OverwriteAt(d: Device, lba: nat, count: nat, data: seq<u8>, i: nat)
    requires DeviceOk(d) && lba + count <= |d| && |data| >= 4096 * count && i < 8 * |d|
    requires DeviceOk(Overwrite(d, lba, count, data))
    ensures WroteAt(d, Overwrite(d, lba, count, data), 8 * lba, 8 * count, data, i)
  {
    hide Piece, BlockOf, SliceOf, DeviceOk;
    Place(i, |d|);
    var b, k := BlockOf(i), SliceOf(i);
    if lba <= b < lba + count {
      PieceOfBlock(data, b - lba, k);
    }
  }

  lemma PieceOfBlock(data: seq<u8>, b: nat, k: nat)
    requires |data| >= 4096 * (b + 1) && k < 8
    ensures Piece(BlockIn(data, b), k) == Piece(data, 8 * b + k)
  {
    var p, q := Piece(BlockIn(data, b), k), Piece(data, 8 * b + k);
    forall i | 0 <= i < 512 ensures p[i] == q[i] {
      PieceAt(BlockIn(data, b), k, i);
      BlockAt(data, b, 512 * k + i);
      PieceAt(data, 8 * b + k, i);
    }
    hide Piece, BlockIn;
  }

  lemma PieceAt(b: seq<u8>, k: nat, i: nat)
    requires 512 * (k + 1) <= |b| && i < 512
    ensures Piece(b, k)[i] == b[512 * k + i]
  {}

  lemma BlockAt(b: seq<u8>, j: nat, i: nat)
    requires 4096 * (j + 1) <= |b| && i < 4096
    ensures BlockIn(b, j)[i] == b[4096 * j + i]
  {}

  // ---------------------------------------------------------------- the flat device

  /** The blocks of the device, joined. */
  function Flat(d: Device): seq<u8> {
    if |d| == 0 then [] else d[0] + Flat(d[1..])
  }

  lemma {:induction false} FlatByte(d: Device, i: nat, j: nat)
    requires (forall k :: 0 <= k < |d| ==> |d[k]| == 4096) && i < |d| && j < 4096
    ensures |Flat(d)| == 4096 * |d| && Flat(d)[4096 * i + j] == d[i][j]
  {
    var t := d[1..];
    if i > 0 {
      FlatByte(t, i - 1, j);
      assert Flat(d)[4096 * i + j] == Flat(t)[4096 * (i - 1) + j];
    } else if |t| > 0 {
      FlatByte(t, 0, j);
    } else {
      assert Flat(t) == [];
    }
  }

  /** Sector i is bytes 512 i to 512 i + 511 of the device. */
  lemma SectorIsFlat(d: Device, i: nat)
    requires DeviceOk(d) && i < 8 * |d|
    ensures |Flat(d)| == 4096 * |d| && Sector(d, i) == Flat(d)[512 * i..512 * i + 512]
  {
    FlatByte(d, i / 8, 0);
    forall j | 0 <= j < 512 ensures Sector(d, i)[j] == Flat(d)[512 * i..512 * i + 512][j] {
      FlatByte(d, i / 8, 512 * (i % 8) + j);
      assert 4096 * (i / 8) + 512 * (i % 8) == 512 * i;
    }
    hide Flat;
  }
}
