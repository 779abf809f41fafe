/** The file allocation table of a FAT32 volume on a disk of 512-byte sectors: entries of 28 bits
    under four reserved ones, kept in several copies. */
module FatTable {
  import opened Words
  import opened LittleEndian

  const EOC := 0xFFF_FFFF
  const TOP4 := 0x1000_0000

  type Disk = seq<seq<u8>>

  /** What fat32_mount reads from the boot sector. */
  datatype Geo = Geo(spc: nat, fatStart: nat, numFats: nat, fatSize: nat)

  /** The accepted geometries: the field widths of the boot sector, at least one table, cluster
      numbers that fit an entry, sector numbers that fit 32 bits. */
  predicate GeoOk(g: Geo) {
    && 0 < g.spc < 0x100 && g.fatStart < 0x1_0000 && 0 < g.numFats < 0x100 && 0 < g.fatSize <= 0x1F_FFFF
    && DataStart(g) + Entries(g) * g.spc < 0x1_0000_0000
  }

  function DataStart(g: Geo): nat {
    Pos(g, g.numFats, 0)
  }

  function Entries(g: Geo): nat {
    128 * g.fatSize
  }

  /** Sector k of copy f of the table. */
  function Pos(g: Geo, f: nat, k: nat): nat {
    MulBound(f, g.fatSize, f, g.fatSize);
    g.fatStart + f * g.fatSize + k
  }

  predicate Sectors(d: Disk) {
    forall i :: 0 <= i < |d| ==> |d[i]| == 512
  }

  /** A disk that holds the whole table region. */
  predicate Covers(g: Geo, d: Disk) {
    GeoOk(g) && Sectors(d) && DataStart(g) <= |d|
  }

  lemma PosBound(g: Geo, f: nat, k: nat)
    requires f < g.numFats && k < g.fatSize
    ensures Pos(g, f, k) < DataStart(g) && g.fatStart <= Pos(g, f, k)
  {
    MulMono(f + 1, g.numFats, g.fatSize);
    assert (f + 1) * g.fatSize == f * g.fatSize + g.fatSize;
  }

  lemma PosFirst(g: Geo, k: nat)
    ensures Pos(g, 0, k) == g.fatStart + k
  {}

  /** Different places of the table are different sectors. */
  lemma PosApart(g: Geo, f: nat, k: nat, f2: nat, k2: nat)
    requires k < g.fatSize && k2 < g.fatSize && Pos(g, f, k) == Pos(g, f2, k2)
    ensures f == f2 && k == k2
  {
    var s := g.fatSize;
    DivModUnique(f * s + k, s, f, k);
    DivModUnique(f2 * s + k2, s, f2, k2);
  }

  // ---------------------------------------------------------------- reading

  /** Entry c of the first copy. */
  function Entry(g: Geo, d: Disk, c: nat): u32
    requires Covers(g, d) && c < Entries(g)
  {
    PosBound(g, 0, c / 128);
    PosFirst(g, c / 128);
    Load32(d[g.fatStart + c / 128], c % 128 * 4)
  }

  function FatOf(g: Geo, d: Disk): (fat: seq<u32>)
    requires Covers(g, d)
    ensures |fat| == Entries(g)
  {
    seq(Entries(g), c requires 0 <= c < Entries(g) => Entry(g, d, c))
  }

  /** Where fat_next looks, in 32-bit arithmetic: the sector and the byte in it. */
  function FatSector(g: Geo, c: u32): u32 {
    (g.fatStart + c * 4 % 0x1_0000_0000 / 512) % 0x1_0000_0000
  }

  function FatByte(c: u32): (r: nat)
    ensures r + 4 <= 512
  {
    InSector(c * 4);
    c * 4 % 0x1_0000_0000 % 512
  }

  lemma InSector(x: nat)
    requires x % 4 == 0
    ensures 0 <= x % 0x1_0000_0000 % 512 <= 508
  {
    var j, q := x / 4, x / 0x1_0000_0000;
    var y := x % 0x1_0000_0000;
    var k, r := y / 512, y % 512;
    assert x == 4 * j && x == 0x1_0000_0000 * q + y && y == 512 * k + r && 0 <= r < 512;
    assert r == 4 * (j - 0x4000_0000 * q - 128 * k);
  }

  /** fat_next: a failed read ends the chain. */
  function FatNext(g: Geo, d: Disk, c: u32): u32
    requires Sectors(d)
  {
    if FatSector(g, c) >= |d| then EOC else Low28(Load32(d[FatSector(g, c)], FatByte(c)))
  }

  /** x & 0x0FFFFFFF. */
  function Low28(x: u32): (r: u32)
    ensures r == x % TOP4
  {
    LowMask(x);
    And(x, 0xFFF_FFFF)
  }

  lemma Pow2At28()
    ensures Pow2(28) == TOP4
  {
    Pow2Words();
    Pow2Values();
    Pow2Sum(20, 8, 28, 0x10_0000, 0x100);
  }

  lemma LowMask(x: u32)
    ensures And(x, 0xFFF_FFFF) == x % TOP4
  {
    Pow2At28();
    AndMask(x, 28);
  }

  lemma HighMask(x: u32)
    ensures And(x, 0xF000_0000) == x / TOP4 * TOP4
  {
    hide And, Pow2;
    Pow2At28();
    Pow2Values();
    AndSplit(x / TOP4, x % TOP4, 0xF, 0, 28);
    AndZero(x % TOP4);
    AndMask(x / TOP4, 4);
    Nibble(x);
  }

  lemma Nibble(x: u32)
    ensures x / TOP4 < 16 && x / TOP4 % 16 == x / TOP4
  {}

  lemma FatNextIs(g: Geo, d: Disk, c: u32)
    requires Covers(g, d) && c < Entries(g)
    ensures FatNext(g, d, c) == FatOf(g, d)[c] % TOP4
  {
    hide Load32, Pos, Low28, DataStart;
    PosBound(g, 0, c / 128);
    PosFirst(g, c / 128);
    OffsetIs(g, c);
  }

  lemma OffsetIs(g: Geo, c: nat)
    requires GeoOk(g) && c < Entries(g)
    ensures c * 4 % 0x1_0000_0000 == c * 4
    ensures c * 4 / 512 == c / 128 && c * 4 % 512 == c % 128 * 4
    ensures (g.fatStart + c / 128) % 0x1_0000_0000 == g.fatStart + c / 128
  {}

  // ---------------------------------------------------------------- writing

  /** (value & 0x0FFFFFFF) | (old & 0xF0000000). */
  function Merged(old_: u32, value: u32): (r: u32)
    ensures r % TOP4 == value % TOP4 && r / TOP4 == old_ / TOP4
  {
    MergedParts(old_, value);
    Or(And(value, 0xFFF_FFFF), And(old_, 0xF000_0000))
  }

  lemma MergedParts(old_: u32, value: u32)
    ensures
      var r := Or(And(value, 0xFFF_FFFF), And(old_, 0xF000_0000));
      0 <= r < 0x1_0000_0000 && r % TOP4 == value % TOP4 && r / TOP4 == old_ / TOP4
  {
    hide And, Or, Pow2;
    LowMask(value);
    HighMask(old_);
    Pow2At28();
    OrDisjoint(old_ / TOP4, value % TOP4, 28);
  }

  /** The sector with the entry at off replaced. */
  function Patched(sec: seq<u8>, off: nat, value: u32): (r: seq<u8>)
    requires off + 4 <= |sec|
    ensures |r| == |sec|
  {
    var v := Merged(Load32(sec, off), value);
    sec[off := ByteOf(v, 0)][off + 1 := ByteOf(v, 1)][off + 2 := ByteOf(v, 2)][off + 3 := ByteOf(v, 3)]
  }

  lemma PatchedWord(sec: seq<u8>, off: nat, value: u32)
    requires off + 4 <= |sec|
    ensures Load32(Patched(sec, off, value), off) == Merged(Load32(sec, off), value)
  {
    hide ByteOf, Merged, Load32;
    var r := Patched(sec, off, value);
    Load32Is(r, off);
    BytesOf(Merged(Load32(sec, off), value));
  }

  lemma PatchedElsewhere(sec: seq<u8>, off: nat, value: u32, at: nat)
    requires off + 4 <= |sec| && at + 4 <= |sec| && (at + 4 <= off || off + 4 <= at)
    ensures Load32(Patched(sec, off, value), at) == Load32(sec, at)
  {
    hide ByteOf, Merged, Load32;
    Load32Is(Patched(sec, off, value), at);
    Load32Is(sec, at);
  }

  /** The sector written at place k of the first n copies. */
  function WriteCopies(g: Geo, d: Disk, k: nat, sec: seq<u8>, n: nat): (r: Disk)
    ensures |r| == |d|
  {
    if n == 0 then d
    else
      var e := WriteCopies(g, d, k, sec, n - 1);
      if Pos(g, n - 1, k) < |d| then e[Pos(g, n - 1, k) := sec] else e
  }

  lemma {:induction false} CopiesInside(g: Geo, d: Disk, k: nat, sec: seq<u8>, n: nat, f: nat, k2: nat)
    requires n <= g.numFats && f < g.numFats && k < g.fatSize && k2 < g.fatSize && DataStart(g) <= |d|
    ensures Pos(g, f, k2) < |d|
    ensures WriteCopies(g, d, k, sec, n)[Pos(g, f, k2)] == if f < n && k2 == k then sec else d[Pos(g, f, k2)]
  {
    PosBound(g, f, k2);
    hide Pos;
    if n > 0 {
      CopiesInside(g, d, k, sec, n - 1, f, k2);
      PosBound(g, n - 1, k);
      if Pos(g, n - 1, k) == Pos(g, f, k2) {
        PosApart(g, n - 1, k, f, k2);
      }
    }
  }

  lemma {:induction false} CopiesOutside(g: Geo, d: Disk, k: nat, sec: seq<u8>, n: nat, lba: nat)
    requires n <= g.numFats && k < g.fatSize && lba < |d| && (lba < g.fatStart || DataStart(g) <= lba)
    ensures WriteCopies(g, d, k, sec, n)[lba] == d[lba]
  {
    if n > 0 {
      CopiesOutside(g, d, k, sec, n - 1, lba);
      PosBound(g, n - 1, k);
      hide Pos;
    }
  }

  lemma {:induction false} CopiesSectors(g: Geo, d: Disk, k: nat, sec: seq<u8>, n: nat)
    requires Sectors(d) && |sec| == 512
    ensures Sectors(WriteCopies(g, d, k, sec, n))
  {
    if n > 0 {
      CopiesSectors(g, d, k, sec, n - 1);
    }
  }

  /** fat_write_entry on the disk: the patched sector of the first copy, written to every copy. */
  function WriteEntry(g: Geo, d: Disk, c: nat, value: u32): (r: Disk)
    requires Covers(g, d) && c < Entries(g)
    ensures |r| == |d|
  {
    PosBound(g, 0, c / 128);
    PosFirst(g, c / 128);
    WriteCopies(g, d, c / 128, Patched(d[g.fatStart + c / 128], c % 128 * 4, value), g.numFats)
  }

  /** All copies of the table are the same. */
  ghost predicate Mirrored(g: Geo, d: Disk)
    requires Covers(g, d)
  {
    forall f, k :: 0 <= f < g.numFats && 0 <= k < g.fatSize ==> SameCopy(g, d, f, k)
  }

  predicate SameCopy(g: Geo, d: Disk, f: nat, k: nat)
    requires Covers(g, d) && f < g.numFats && k < g.fatSize
  {
    PosBound(g, f, k);
    PosBound(g, 0, k);
    d[Pos(g, f, k)] == d[Pos(g, 0, k)]
  }

  /** The disks agree outside the table. */
  ghost predicate SameData(g: Geo, d: Disk, e: Disk) {
    |d| == |e| && forall lba :: 0 <= lba < |d| && (lba < g.fatStart || DataStart(g) <= lba) ==> d[lba] == e[lba]
  }

  /** The table with the low 28 bits of one entry replaced. */
  function SetEntry(fat: seq<u32>, c: nat, value: u32): (r: seq<u32>)
    requires c < |fat|
    ensures |r| == |fat|
  {
    fat[c := Merged(fat[c], value)]
  }

  lemma WriteEntryCovers(g: Geo, d: Disk, c: nat, value: u32)
    requires Covers(g, d) && c < Entries(g)
    ensures Covers(g, WriteEntry(g, d, c, value)) && SameData(g, d, WriteEntry(g, d, c, value))
  {
    PosBound(g, 0, c / 128);
    PosFirst(g, c / 128);
    var k, sec := c / 128, Patched(d[g.fatStart + c / 128], c % 128 * 4, value);
    CopiesSectors(g, d, k, sec, g.numFats);
    forall lba | 0 <= lba < |d| && (lba < g.fatStart || DataStart(g) <= lba)
      ensures WriteEntry(g, d, c, value)[lba] == d[lba]
    {
      CopiesOutside(g, d, k, sec, g.numFats, lba);
    }
    hide Pos, Patched, WriteCopies, DataStart;
  }

  /** Writing an entry keeps the copies equal. */
  lemma WriteEntryMirrors(g: Geo, d: Disk, c: nat, value: u32)
    requires Covers(g, d) && c < Entries(g) && Mirrored(g, d)
    ensures Covers(g, WriteEntry(g, d, c, value)) && Mirrored(g, WriteEntry(g, d, c, value))
  {
    WriteEntryCovers(g, d, c, value);
    PosBound(g, 0, c / 128);
    PosFirst(g, c / 128);
    var sec := Patched(d[g.fatStart + c / 128], c % 128 * 4, value);
    var e := WriteEntry(g, d, c, value);
    forall f, k | 0 <= f < g.numFats && 0 <= k < g.fatSize ensures SameCopy(g, e, f, k) {
      CopiesInside(g, d, c / 128, sec, g.numFats, f, k);
      CopiesInside(g, d, c / 128, sec, g.numFats, 0, k);
      assert SameCopy(g, d, f, k);
    }
    hide Pos, Patched, WriteCopies, DataStart;
  }

  /** On the table, fat_write_entry sets one entry and keeps its reserved bits. */
  lemma WriteEntrySets(g: Geo, d: Disk, c: nat, value: u32)
    requires Covers(g, d) && c < Entries(g)
    ensures Covers(g, WriteEntry(g, d, c, value))
    ensures FatOf(g, WriteEntry(g, d, c, value)) == SetEntry(FatOf(g, d), c, value)
  {
    WriteEntryCovers(g, d, c, value);
    var e := WriteEntry(g, d, c, value);
    forall i | 0 <= i < Entries(g) ensures Entry(g, e, i) == SetEntry(FatOf(g, d), c, value)[i] {
      EntryAfter(g, d, c, value, i);
    }
    hide Entry, WriteEntry, Covers, SetEntry;
  }

  lemma EntryAfter(g: Geo, d: Disk, c: nat, value: u32, i: nat)
    requires Covers(g, d) && c < Entries(g) && i < Entries(g) && Covers(g, WriteEntry(g, d, c, value))
    ensures Entry(g, WriteEntry(g, d, c, value), i) == if i == c then Merged(Entry(g, d, c), value) else Entry(g, d, i)
  {
    hide Load32, Merged, Patched, WriteCopies, DataStart, Pos;
    PosBound(g, 0, c / 128);
    PosFirst(g, c / 128);
    PosBound(g, 0, i / 128);
    PosFirst(g, i / 128);
    var sec := d[g.fatStart + c / 128];
    CopiesInside(g, d, c / 128, Patched(sec, c % 128 * 4, value), g.numFats, 0, i / 128);
    if i / 128 == c / 128 {
      if i == c {
        PatchedWord(sec, c % 128 * 4, value);
      } else {
        PatchedElsewhere(sec, c % 128 * 4, value, i % 128 * 4);
      }
    }
  }

  // ---------------------------------------------------------------- the disk behind the table

  /** Two equal entries are four equal bytes. */
  lemma SameWord(a: seq<u8>, b: seq<u8>, at: nat, j: nat)
    requires at + 4 <= |a| && at + 4 <= |b| && Load32(a, at) == Load32(b, at) && at <= j < at + 4
    ensures a[j] == b[j]
  {
    hide Load32;
    Load32Is(a, at);
    Load32Is(b, at);
    FourDigits(a[at], a[at + 1], a[at + 2], a[at + 3], b[at], b[at + 1], b[at + 2], b[at + 3]);
  }

  lemma FourDigits(a: u8, b: u8, c: u8, d: u8, p: u8, q: u8, r: u8, s: u8)
    requires a as int + 0x100 * b as int + 0x1_0000 * c as int + 0x100_0000 * d as int
             == p as int + 0x100 * q as int + 0x1_0000 * r as int + 0x100_0000 * s as int
    ensures a == p && b == q && c == r && d == s
  {
    LowDigit(a, b as int + 0x100 * c as int + 0x1_0000 * d as int, p, q as int + 0x100 * r as int + 0x1_0000 * s as int);
    LowDigit(b, c as int + 0x100 * d as int, q, r as int + 0x100 * s as int);
    LowDigit(c, d, r, s);
  }

  lemma SameTableSector(g: Geo, d: Disk, e: Disk, k: nat)
    requires Covers(g, d) && Covers(g, e) && FatOf(g, d) == FatOf(g, e) && k < g.fatSize
    ensures Pos(g, 0, k) < |d| && Pos(g, 0, k) < |e| && d[Pos(g, 0, k)] == e[Pos(g, 0, k)]
  {
    PosBound(g, 0, k);
    PosFirst(g, k);
    var a, b := d[Pos(g, 0, k)], e[Pos(g, 0, k)];
    forall j | 0 <= j < 512 ensures a[j] == b[j] {
      var c := 128 * k + j / 4;
      assert c / 128 == k && c % 128 * 4 == j / 4 * 4;
      EntryAt(g, d, c);
      EntryAt(g, e, c);
      SameWord(a, b, j / 4 * 4, j);
    }
    hide Pos;
  }

  lemma EntryAt(g: Geo, d: Disk, c: nat)
    requires Covers(g, d) && c < Entries(g)
    ensures Pos(g, 0, c / 128) < |d| && FatOf(g, d)[c] == Load32(d[Pos(g, 0, c / 128)], c % 128 * 4)
  {
    PosBound(g, 0, c / 128);
    hide Load32;
  }

  /** Place of a table sector. */
  lemma TablePlace(g: Geo, lba: nat) returns (f: nat, k: nat)
    requires GeoOk(g) && g.fatStart <= lba < DataStart(g)
    ensures f < g.numFats && k < g.fatSize && Pos(g, f, k) == lba
  {
    f, k := QuotientBelow(lba - g.fatStart, g.fatSize, g.numFats);
  }

  lemma QuotientBelow(x: nat, s: nat, n: nat) returns (f: nat, k: nat)
    requires s > 0 && x < n * s
    ensures f < n && k < s && x == f * s + k
  {
    DivBound(x, s);
    f, k := x / s, x % s;
    assert x == f * s + k;
    if f >= n {
      MulMono(n, f, s);
    }
  }

  /** Equal tables, equal copies and equal data make equal disks: a table put back entry by entry
      is a disk put back byte by byte. */
  lemma DiskDetermined(g: Geo, d: Disk, e: Disk)
    requires Covers(g, d) && Covers(g, e) && SameData(g, d, e) && Mirrored(g, d) && Mirrored(g, e)
    requires FatOf(g, d) == FatOf(g, e)
    ensures d == e
  {
    forall lba | 0 <= lba < |d| ensures d[lba] == e[lba] {
      if g.fatStart <= lba < DataStart(g) {
        var f, k := TablePlace(g, lba);
        assert SameCopy(g, d, f, k) && SameCopy(g, e, f, k);
        SameTableSector(g, d, e, k);
      }
    }
    hide FatOf, Pos, DataStart;
  }
}
