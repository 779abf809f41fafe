/** The data sectors of a cluster chain: where they are, what fat32_write_file puts in them and what
    fat32_read_file gets out. */
module FatData {
  import opened Words
  import opened FatTable
  import opened FatChain

  /** cluster_to_lba, in 32-bit arithmetic. */
  function ClusterLba(g: Geo, c: u32): u32 {
    (DataStart(g) + (c - 2) * g.spc) % 0x1_0000_0000
  }

  /** Sector s of cluster c. */
  function DataLba(g: Geo, c: nat, s: nat): nat
    requires c >= 2
  {
    MulBound(c - 2, g.spc, c - 2, g.spc);
    DataStart(g) + (c - 2) * g.spc + s
  }

  lemma ClusterLbaIs(g: Geo, c: u32)
    requires GeoOk(g) && 2 <= c < Entries(g)
    ensures ClusterLba(g, c) == DataLba(g, c, 0) && DataLba(g, c, 0) + g.spc < 0x1_0000_0000
  {
    MulMono(c - 1, Entries(g), g.spc);
    assert (c - 1) * g.spc == (c - 2) * g.spc + g.spc;
    Narrow(DataLba(g, c, 0));
    hide DataStart, Pos;
  }

  lemma Narrow(x: nat)
    requires x < 0x1_0000_0000
    ensures x % 0x1_0000_0000 == x
  {}

  lemma DataLbaNext(g: Geo, c: nat, s: nat)
    requires c >= 2
    ensures DataLba(g, c, s) == DataLba(g, c, 0) + s && DataLba(g, c, 0) >= DataStart(g)
  {}

  /** The cluster a data sector belongs to. */
  function ClusterOf(g: Geo, lba: nat): int
    requires lba >= DataStart(g) && g.spc > 0
  {
    (lba - DataStart(g)) / g.spc + 2
  }

  lemma ClusterOfIs(g: Geo, c: nat, s: nat)
    requires c >= 2 && s < g.spc
    ensures DataLba(g, c, s) >= DataStart(g) && ClusterOf(g, DataLba(g, c, s)) == c
  {
    DivModUnique((c - 2) * g.spc + s, g.spc, c - 2, s);
  }

  lemma DataApart(g: Geo, c: nat, s: nat, c2: nat, s2: nat)
    requires c >= 2 && c2 >= 2 && s < g.spc && s2 < g.spc && DataLba(g, c, s) == DataLba(g, c2, s2)
    ensures c == c2 && s == s2
  {
    ClusterOfIs(g, c, s);
    ClusterOfIs(g, c2, s2);
    DataLbaNext(g, c, s);
    DataLbaNext(g, c2, s2);
    hide DataLba, ClusterOf;
  }

  /** The chain's clusters are entries of the table. */
  predicate Clusters(g: Geo, cs: seq<nat>) {
    forall i :: 0 <= i < |cs| ==> 2 <= cs[i] < Entries(g)
  }

  /** Position in the file of sector s of the i-th cluster. */
  function Off(g: Geo, i: nat, s: nat): nat {
    MulBound(i, g.spc, i, g.spc);
    (i * g.spc + s) * 512
  }

  lemma OffNext(g: Geo, i: nat, s: nat)
    ensures Off(g, i, s + 1) == Off(g, i, s) + 512 && Off(g, i + 1, 0) == Off(g, i, g.spc) && Off(g, 0, 0) == 0
  {
    assert (i + 1) * g.spc == i * g.spc + g.spc;
  }

  lemma OffOrder(g: Geo, i: nat, s: nat, i2: nat, s2: nat)
    requires s < g.spc && s2 < g.spc
    ensures Off(g, i, s) < Off(g, i2, s2) <==> i < i2 || (i == i2 && s < s2)
    ensures Off(g, i, s) == Off(g, i2, s2) <==> i == i2 && s == s2
  {
    if i < i2 {
      MulMono(i + 1, i2, g.spc);
      assert (i + 1) * g.spc == i * g.spc + g.spc;
    } else if i2 < i {
      MulMono(i2 + 1, i, g.spc);
      assert (i2 + 1) * g.spc == i2 * g.spc + g.spc;
    }
  }

  /** 512 bytes of the data from off on, with zeros after its end. */
  function Padded(data: seq<u8>, off: nat): (r: seq<u8>)
    ensures |r| == 512
  {
    seq(512, k requires 0 <= k < 512 => if off + k < |data| then data[off + k] else 0)
  }

  predicate SectorStored(g: Geo, d: Disk, cs: seq<nat>, data: seq<u8>, i: nat, s: nat)
    requires i < |cs| && Clusters(g, cs)
  {
    DataLba(g, cs[i], s) < |d| && d[DataLba(g, cs[i], s)] == Padded(data, Off(g, i, s))
  }

  /** Every sector of the data that starts before byte n is in its place in the chain. */
  ghost predicate Stored(g: Geo, d: Disk, cs: seq<nat>, data: seq<u8>, n: nat) {
    Clusters(g, cs) &&
    forall i, s :: 0 <= i < |cs| && 0 <= s < g.spc && Off(g, i, s) < n && Off(g, i, s) < |data| ==> SectorStored(g, d, cs, data, i, s)
  }

  /** Every sector the data needs is on the device. */
  ghost predicate OnDevice(g: Geo, d: Disk, cs: seq<nat>, n: nat) {
    Clusters(g, cs) &&
    forall i, s :: 0 <= i < |cs| && 0 <= s < g.spc && Off(g, i, s) < n ==> DataLba(g, cs[i], s) < |d|
  }

  /** The disks differ at most in the data sectors of the clusters cs. */
  ghost predicate OnlyClusters(g: Geo, d: Disk, e: Disk, cs: seq<nat>)
    requires GeoOk(g)
  {
    |d| == |e| && forall lba :: 0 <= lba < |d| && !InClusters(g, cs, lba) ==> d[lba] == e[lba]
  }

  predicate InClusters(g: Geo, cs: seq<nat>, lba: nat)
    requires GeoOk(g)
  {
    lba >= DataStart(g) && ClusterOf(g, lba) in cs
  }

  /** The table does not see writes to data sectors. */
  lemma FatUntouched(g: Geo, d: Disk, e: Disk, cs: seq<nat>)
    requires Covers(g, d) && Covers(g, e) && OnlyClusters(g, d, e, cs)
    ensures FatOf(g, d) == FatOf(g, e)
  {
    forall c | 0 <= c < Entries(g) ensures Entry(g, d, c) == Entry(g, e, c) {
      PosBound(g, 0, c / 128);
      PosFirst(g, c / 128);
      assert !InClusters(g, cs, g.fatStart + c / 128);
    }
    hide Pos, DataStart, ClusterOf;
  }

  /** One sector write of the data loop. */
  lemma StoredStep(g: Geo, d: Disk, cs: seq<nat>, data: seq<u8>, i: nat, s: nat)
    requires GeoOk(g) && Distinct(cs) && i < |cs| && s < g.spc
    requires Stored(g, d, cs, data, Off(g, i, s)) && DataLba(g, cs[i], s) < |d|
    ensures
      var e := d[DataLba(g, cs[i], s) := Padded(data, Off(g, i, s))];
      Stored(g, e, cs, data, Off(g, i, s) + 512) && OnlyClusters(g, d, e, cs)
  {
    var lba := DataLba(g, cs[i], s);
    var e := d[lba := Padded(data, Off(g, i, s))];
    forall i2, s2 | 0 <= i2 < |cs| && 0 <= s2 < g.spc && Off(g, i2, s2) < Off(g, i, s) + 512 && Off(g, i2, s2) < |data|
      ensures SectorStored(g, e, cs, data, i2, s2)
    {
      StoredAt(g, d, cs, data, i, s, i2, s2);
    }
    ClusterOfIs(g, cs[i], s);
    hide Off, DataLba, ClusterOf, DataStart;
  }

  lemma StoredAt(g: Geo, d: Disk, cs: seq<nat>, data: seq<u8>, i: nat, s: nat, i2: nat, s2: nat)
    requires GeoOk(g) && Distinct(cs) && i < |cs| && s < g.spc && i2 < |cs| && s2 < g.spc
    requires Stored(g, d, cs, data, Off(g, i, s)) && DataLba(g, cs[i], s) < |d|
    requires Off(g, i2, s2) < Off(g, i, s) + 512 && Off(g, i2, s2) < |data|
    ensures SectorStored(g, d[DataLba(g, cs[i], s) := Padded(data, Off(g, i, s))], cs, data, i2, s2)
  {
    OffNext(g, i, s);
    Within(g, i, s, i2, s2);
    OffOrder(g, i2, s2, i, s);
    hide Off, DataLba, Padded, DataStart;
    if i != i2 || s != s2 {
      assert SectorStored(g, d, cs, data, i2, s2);
      if DataLba(g, cs[i], s) == DataLba(g, cs[i2], s2) {
        DataApart(g, cs[i], s, cs[i2], s2);
      }
    }
  }

  lemma Within(g: Geo, i: nat, s: nat, i2: nat, s2: nat)
    requires Off(g, i2, s2) < Off(g, i, s) + 512
    ensures Off(g, i2, s2) <= Off(g, i, s)
  {}

  // ---------------------------------------------------------------- reading

  /** Concatenation, named so that proofs can treat it as one step. */
  function Cat(a: seq<u8>, b: seq<u8>): (r: seq<u8>)
    ensures |r| == |a| + |b|
  {
    a + b
  }

  lemma CatAssoc(a: seq<u8>, b: seq<u8>, c: seq<u8>)
    ensures Cat(a, Cat(b, c)) == Cat(Cat(a, b), c)
  {}

  lemma CatNone(a: seq<u8>)
    ensures Cat(a, []) == a && Cat([], a) == a
  {}

  datatype Got = Got(bytes: seq<u8>, ok: bool)

  function Min(a: int, b: int): int {
    if a < b then a else b
  }

  /** Up to n sectors from lba on, until the count is met or a read fails. */
  function ReadSectors(d: Disk, lba: u32, n: nat, remaining: nat): (r: Got)
    requires Sectors(d)
    ensures |r.bytes| <= remaining
    ensures r.ok && n > 0 && remaining > 0 ==> |r.bytes| > 0
    decreases n
  {
    if n == 0 || remaining == 0 then Got([], true)
    else if lba >= |d| then Got([], false)
    else
      var take := Min(remaining, 512);
      var rest := ReadSectors(d, (lba + 1) % 0x1_0000_0000, n - 1, remaining - take);
      Got(Cat(d[lba][..take], rest.bytes), rest.ok)
  }

  /** The bytes fat32_read_file produces from a cluster on, whatever the disk holds. */
  function ReadFrom(g: Geo, d: Disk, cluster: u32, remaining: nat): (r: seq<u8>)
    requires Sectors(d) && g.spc > 0
    ensures |r| <= remaining
    decreases remaining
  {
    if cluster >= LAST || remaining == 0 then []
    else
      var got := ReadSectors(d, ClusterLba(g, cluster), g.spc, remaining);
      if !got.ok then got.bytes
      else Cat(got.bytes, ReadFrom(g, d, FatNext(g, d, cluster), remaining - |got.bytes|))
  }

  /** The bytes from a to b. */
  function Cut(data: seq<u8>, a: nat, b: int): seq<u8> {
    if a <= b <= |data| then data[a..b] else []
  }

  lemma CutJoin(data: seq<u8>, a: nat, m: int, b: int)
    requires a <= m <= b <= |data|
    ensures Cat(Cut(data, a, m), Cut(data, m, b)) == Cut(data, a, b)
  {}

  lemma CutNone(data: seq<u8>, a: nat)
    ensures Cut(data, a, a) == []
  {}

  lemma ReadStep(d: Disk, lba: u32, n: nat, remaining: nat)
    requires Sectors(d) && n > 0 && remaining > 0 && lba < |d| && lba + 1 < 0x1_0000_0000
    ensures
      var rest := ReadSectors(d, lba + 1, n - 1, remaining - Min(remaining, 512));
      ReadSectors(d, lba, n, remaining) == Got(Cat(d[lba][..Min(remaining, 512)], rest.bytes), rest.ok)
  {
    Narrow(lba + 1);
  }

  lemma ReadNone(d: Disk, lba: u32, n: nat, remaining: nat)
    requires Sectors(d) && (n == 0 || remaining == 0)
    ensures ReadSectors(d, lba, n, remaining) == Got([], true)
  {}

  lemma PaddedPrefix(data: seq<u8>, off: nat, n: nat)
    requires n <= 512 && off + n <= |data|
    ensures Padded(data, off)[..n] == Cut(data, off, off + n)
  {}

  lemma OffMono(g: Geo, i: nat, s: nat)
    requires s <= g.spc
    ensures Off(g, i, s) <= Off(g, i, g.spc)
  {}

  lemma SectorAt(g: Geo, d: Disk, cs: seq<nat>, data: seq<u8>, i: nat, s: nat)
    requires Stored(g, d, cs, data, |data|) && i < |cs| && s < g.spc && Off(g, i, s) < |data|
    ensures cs[i] >= 2 && DataLba(g, cs[i], 0) + s < |d| && d[DataLba(g, cs[i], 0) + s] == Padded(data, Off(g, i, s))
  {
    hide Padded, Off;
    assert SectorStored(g, d, cs, data, i, s);
  }

  /** Reading on from sector s of a stored cluster gives its bytes up to e. */
  lemma {:induction false} SectorsHold(g: Geo, d: Disk, cs: seq<nat>, data: seq<u8>, i: nat, s: nat, e: nat, base: nat)
    requires g.spc > 0 && Sectors(d) && i < |cs| && s <= g.spc && e <= |data| && Stored(g, d, cs, data, |data|)
    requires Off(g, i, s) <= e && cs[i] >= 2 && base == DataLba(g, cs[i], 0) && base + g.spc < 0x1_0000_0000
    ensures
      ReadSectors(d, base + s, g.spc - s, e - Off(g, i, s)) == Got(Cut(data, Off(g, i, s), Min(e, Off(g, i, g.spc))), true)
    decreases g.spc - s
  {
    hide Padded, Stored, DataLba, Off, ReadSectors, Cut, Cat;
    var off := Off(g, i, s);
    OffMono(g, i, s);
    OffNext(g, i, s);
    if s == g.spc || off == e {
      ReadNone(d, base + s, g.spc - s, e - off);
      CutNone(data, off);
    } else {
      SectorAt(g, d, cs, data, i, s);
      var take := Min(e - off, 512);
      PaddedPrefix(data, off, take);
      ReadStep(d, base + s, g.spc - s, e - off);
      OffMono(g, i, s + 1);
      if take == 512 {
        SectorsHold(g, d, cs, data, i, s + 1, e, base);
        CutJoin(data, off, off + 512, Min(e, Off(g, i, g.spc)));
      } else {
        ReadNone(d, base + s + 1, g.spc - s - 1, 0);
        CatNone(Cut(data, off, e));
      }
    }
  }

  lemma ReadOne(g: Geo, d: Disk, cluster: u32, remaining: nat)
    requires Sectors(d) && g.spc > 0 && cluster < LAST && remaining > 0
    ensures
      var got := ReadSectors(d, ClusterLba(g, cluster), g.spc, remaining);
      got.ok ==> ReadFrom(g, d, cluster, remaining)
                 == Cat(got.bytes, ReadFrom(g, d, FatNext(g, d, cluster), remaining - |got.bytes|))
  {
    hide ReadSectors, ClusterLba, FatNext, Cat, Sectors;
  }

  lemma ReadEnd(g: Geo, d: Disk, cluster: u32, remaining: nat)
    requires Sectors(d) && g.spc > 0 && (cluster >= LAST || remaining == 0)
    ensures ReadFrom(g, d, cluster, remaining) == []
  {}

  lemma CutLength(data: seq<u8>, a: nat, b: nat)
    requires a <= b <= |data|
    ensures |Cut(data, a, b)| == b - a
  {}

  /** One stored cluster, then whatever is read after it. */
  lemma ReadThen(g: Geo, d: Disk, cs: seq<nat>, data: seq<u8>, i: nat, e: nat)
    requires Covers(g, d) && Chain(FatOf(g, d), cs) && Stored(g, d, cs, data, |data|)
    requires i < |cs| && Off(g, i, 0) < e <= |data|
    ensures cs[i] < LAST && Sectors(d) && g.spc > 0 && Off(g, i, 0) <= Off(g, i + 1, 0)
    ensures
      var off, mid := Off(g, i, 0), Off(g, i + 1, 0);
      ReadFrom(g, d, cs[i], e - off)
      == Cat(Cut(data, off, Min(e, mid)), if mid < e then ReadFrom(g, d, FatNext(g, d, cs[i]), e - mid) else [])
  {
    LinkedCluster(g, d, cs, i);
    hide Off, Stored, DataLba, ClusterLba, FatOf, FatNext, ReadSectors, ReadFrom, Cut, Cat, Chain, Covers, Sectors;
    OffNext(g, i, 0);
    OffMono(g, i, 0);
    SectorsHold(g, d, cs, data, i, 0, e, DataLba(g, cs[i], 0));
    GotThen(g, d, cs[i], data, Off(g, i, 0), Off(g, i + 1, 0), e);
  }

  lemma GotThen(g: Geo, d: Disk, c: u32, data: seq<u8>, off: nat, mid: nat, e: nat)
    requires Sectors(d) && g.spc > 0 && c < LAST && off < e <= |data| && off <= mid
    requires ReadSectors(d, ClusterLba(g, c), g.spc, e - off) == Got(Cut(data, off, Min(e, mid)), true)
    ensures ReadFrom(g, d, c, e - off)
            == Cat(Cut(data, off, Min(e, mid)), if mid < e then ReadFrom(g, d, FatNext(g, d, c), e - mid) else [])
  {
    hide ClusterLba, FatNext, ReadSectors, ReadFrom, Cut, Cat, Sectors;
    ReadOne(g, d, c, e - off);
    CutLength(data, off, Min(e, mid));
    if mid >= e {
      ReadEnd(g, d, FatNext(g, d, c), 0);
    }
  }

  /** Reading a chain that holds the data returns the data. */
  lemma {:induction false} ReadsBack(g: Geo, d: Disk, cs: seq<nat>, data: seq<u8>, i: nat, e: nat)
    requires Covers(g, d) && Chain(FatOf(g, d), cs) && Stored(g, d, cs, data, |data|)
    requires i < |cs| && e <= |data| && Off(g, i, 0) <= e
    ensures cs[i] < LAST
    ensures ReadFrom(g, d, cs[i], e - Off(g, i, 0)) == Cut(data, Off(g, i, 0), Min(e, Off(g, |cs|, 0)))
    decreases |cs| - i
  {
    LinkedCluster(g, d, cs, i);
    hide Off, Stored, DataLba, ClusterLba, FatOf, FatNext, ReadSectors, ReadFrom, Cut, Cat, Chain, Covers, Sectors;
    var off, mid, end := Off(g, i, 0), Off(g, i + 1, 0), Off(g, |cs|, 0);
    OffLater(g, i, i + 1);
    OffLater(g, i + 1, |cs|);
    if off == e {
      ReadEnd(g, d, cs[i], 0);
      CutNone(data, off);
    } else {
      ReadThen(g, d, cs, data, i, e);
      if mid < e && i + 1 < |cs| {
        ReadsBack(g, d, cs, data, i + 1, e);
      } else if mid < e {
        ReadEnd(g, d, FatNext(g, d, cs[i]), e - mid);
        CutNone(data, mid);
      }
      JoinReads(data, off, mid, e, end, if mid < e then ReadFrom(g, d, FatNext(g, d, cs[i]), e - mid) else []);
    }
  }

  lemma JoinReads(data: seq<u8>, off: nat, mid: nat, e: nat, end: nat, rest: seq<u8>)
    requires off < e <= |data| && off <= mid <= end
    requires rest == if mid < e then Cut(data, mid, Min(e, end)) else []
    ensures Cat(Cut(data, off, Min(e, mid)), rest) == Cut(data, off, Min(e, end))
  {
    hide Cut, Cat;
    if mid < e {
      CutJoin(data, off, mid, Min(e, end));
    } else {
      CatNone(Cut(data, off, e));
    }
  }

  lemma LinkedCluster(g: Geo, d: Disk, cs: seq<nat>, i: nat)
    requires Covers(g, d) && i < |cs| && Chain(FatOf(g, d), cs)
    ensures Sectors(d) && g.spc > 0 && 2 <= cs[i] < LAST
    ensures if i + 1 < |cs| then FatNext(g, d, cs[i]) == cs[i + 1] else FatNext(g, d, cs[i]) >= LAST
    ensures ClusterLba(g, cs[i]) == DataLba(g, cs[i], 0) && DataLba(g, cs[i], 0) + g.spc < 0x1_0000_0000
  {
    assert Link(FatOf(g, d), cs, i);
    FatNextIs(g, d, cs[i]);
    ClusterLbaIs(g, cs[i]);
    hide FatNext, FatOf, DataLba, ClusterLba;
  }

  lemma OffLater(g: Geo, i: nat, j: nat)
    requires i <= j
    ensures Off(g, i, 0) <= Off(g, j, 0)
  {
    MulMono(i, j, g.spc);
  }

  // ---------------------------------------------------------------- whole files

  /** (len + cluster_size - 1) / cluster_size in 32 bits, at least one. */
  function ClustersNeeded(g: Geo, n: nat): (k: nat)
    requires g.spc > 0
    ensures k > 0
  {
    var k := (n + g.spc * 512 - 1) % 0x1_0000_0000 / (g.spc * 512);
    if k <= 0 then 1 else k
  }

  lemma CeilCovers(n: nat, size: nat)
    requires size > 0
    ensures (n + size - 1) / size * size >= n && (n + size - 1) / size >= 0
  {
    var x := n + size - 1;
    assert x == x / size * size + x % size;
    DivBound(x, size);
  }

  /** The clusters hold the whole file exactly when rounding its length up does not wrap. */
  lemma ClustersCoverIff(g: Geo, n: nat)
    requires 0 < g.spc < 0x100 && n < 0x1_0000_0000
    ensures Off(g, ClustersNeeded(g, n), 0) >= n <==> n + g.spc * 512 - 1 < 0x1_0000_0000
  {
    var size := g.spc * 512;
    var x := n + size - 1;
    OffIs(g, ClustersNeeded(g, n));
    if x < 0x1_0000_0000 {
      Narrow(x);
      CeilCovers(n, size);
    } else {
      DivModUnique(x, 0x1_0000_0000, 1, x - 0x1_0000_0000);
      DivModUnique(x - 0x1_0000_0000, size, 0, x - 0x1_0000_0000);
    }
    hide Off;
  }

  lemma OffIs(g: Geo, i: nat)
    ensures Off(g, i, 0) == i * (g.spc * 512)
  {
    MulAssoc(i, g.spc, 512);
  }

  /** The clusters come in increasing order. */
  ghost predicate Increasing(cs: seq<nat>) {
    forall i, j :: 0 <= i < j < |cs| ==> cs[i] < cs[j]
  }

  /** The number, counted along the chain, of the last sector that n bytes need of it. */
  function LastSector(g: Geo, cs: seq<nat>, n: nat): nat
    requires n > 0 && |cs| > 0 && g.spc > 0
  {
    LastInside(g, |cs|, n);
    (Min(n, Off(g, |cs|, 0)) - 1) / 512
  }

  /** The place on the device of that sector. */
  function LastLba(g: Geo, cs: seq<nat>, n: nat): nat
    requires n > 0 && |cs| > 0 && g.spc > 0 && Clusters(g, cs)
  {
    LastInside(g, |cs|, n);
    var j := LastSector(g, cs, n);
    DataLba(g, cs[j / g.spc], j % g.spc)
  }

  lemma LastInside(g: Geo, count: nat, n: nat)
    requires n > 0 && count > 0 && g.spc > 0
    ensures
      var k := Min(n, Off(g, count, 0));
      var j := (k - 1) / 512;
      k > 0 && j >= 0 && 0 <= j / g.spc < count && j == j / g.spc * g.spc + j % g.spc
  {
    MulPositive(count, g.spc);
    var j := (Min(n, Off(g, count, 0)) - 1) / 512;
    DivBound(j, g.spc);
    var q := j / g.spc;
    if q >= count {
      MulMono(count, q, g.spc);
    }
  }

  /** Further clusters and further sectors are further out on the device. */
  lemma DataOrder(g: Geo, c: nat, s: nat, c2: nat, s2: nat)
    requires 2 <= c && 2 <= c2 && s < g.spc && s2 < g.spc && (c < c2 || (c == c2 && s <= s2))
    ensures DataLba(g, c, s) <= DataLba(g, c2, s2)
  {
    if c < c2 {
      MulMono(c - 1, c2 - 2, g.spc);
      assert (c - 1) * g.spc == (c - 2) * g.spc + g.spc;
    }
    hide DataStart;
  }

  /** Up to the last needed sector, every sector of the data comes before it. */
  lemma BeforeLast(g: Geo, cs: seq<nat>, n: nat, i: nat, s: nat)
    requires n > 0 && g.spc > 0 && i < |cs| && s < g.spc && Off(g, i, s) < n
    ensures
      var j := LastSector(g, cs, n);
      i < j / g.spc || (i == j / g.spc && s <= j % g.spc)
  {
    LastInside(g, |cs|, n);
    var j := LastSector(g, cs, n);
    var a, b := j / g.spc, j % g.spc;
    OffOrder(g, i, s, |cs|, 0);
    SectorsFloor(i * g.spc + s, Min(n, Off(g, |cs|, 0)));
    assert (a + 1) * g.spc == a * g.spc + g.spc;
    if i > a {
      MulMono(a + 1, i, g.spc);
    }
  }

  lemma SectorsFloor(x: nat, k: nat)
    requires x * 512 < k
    ensures x <= (k - 1) / 512
  {}

  /** All the data's sectors are on the device exactly when the last of them is. */
  lemma OnDeviceIff(g: Geo, d: Disk, cs: seq<nat>, n: nat)
    requires g.spc > 0 && |cs| > 0 && Clusters(g, cs) && Increasing(cs)
    ensures OnDevice(g, d, cs, n) <==> n == 0 || LastLba(g, cs, n) < |d|
  {
    if n > 0 {
      LastInside(g, |cs|, n);
      var j := LastSector(g, cs, n);
      if LastLba(g, cs, n) < |d| {
        forall i, s | 0 <= i < |cs| && 0 <= s < g.spc && Off(g, i, s) < n ensures DataLba(g, cs[i], s) < |d| {
          BeforeLast(g, cs, n, i, s);
          DataOrder(g, cs[i], s, cs[j / g.spc], j % g.spc);
        }
      }
      LastOff(g, cs, n);
    }
    hide Off, DataLba, LastSector;
  }

  lemma LastOff(g: Geo, cs: seq<nat>, n: nat)
    requires n > 0 && |cs| > 0 && g.spc > 0
    ensures
      var j := LastSector(g, cs, n);
      0 <= j / g.spc && Off(g, j / g.spc, j % g.spc) < n
  {
    LastInside(g, |cs|, n);
  }

  /** What is stored reads back, all of it exactly when its length rounds up without wrapping. */
  lemma ReadsBackIff(g: Geo, d: Disk, cs: seq<nat>, data: seq<u8>)
    requires Covers(g, d) && Chain(FatOf(g, d), cs) && Stored(g, d, cs, data, |data|)
    requires |data| < 0x1_0000_0000 && |cs| == ClustersNeeded(g, |data|)
    ensures cs[0] < LAST
    ensures ReadFrom(g, d, cs[0], |data|) == data[..Min(|data|, Off(g, |cs|, 0))]
    ensures ReadFrom(g, d, cs[0], |data|) == data <==> |data| + g.spc * 512 - 1 < 0x1_0000_0000
  {
    hide Chain, Stored, Off, ReadFrom, ClustersNeeded, FatOf, Covers;
    GeoBounds(g, d);
    OffZero(g);
    ReadsBack(g, d, cs, data, 0, |data|);
    ClustersCoverIff(g, |data|);
    var m := Min(|data|, Off(g, |cs|, 0));
    assert Cut(data, 0, m) == data[..m];
    assert m < |data| ==> |data[..m]| < |data|;
    assert data[..|data|] == data;
  }

  lemma OffZero(g: Geo)
    ensures Off(g, 0, 0) == 0
  {}

  lemma GeoBounds(g: Geo, d: Disk)
    requires Covers(g, d)
    ensures 0 < g.spc < 0x100 && Sectors(d)
  {}

  /** Apart from the table the disks differ at most in the clusters cs. */
  ghost predicate Elsewhere(g: Geo, d: Disk, e: Disk, cs: seq<nat>)
    requires GeoOk(g)
  {
    |d| == |e| &&
    forall lba :: 0 <= lba < |d| && (lba < g.fatStart || DataStart(g) <= lba) && !InClusters(g, cs, lba) ==> d[lba] == e[lba]
  }

  lemma ElsewhereFrom(g: Geo, d: Disk, m: Disk, e: Disk, cs: seq<nat>)
    requires GeoOk(g) && SameData(g, d, m) && OnlyClusters(g, m, e, cs)
    ensures Elsewhere(g, d, e, cs)
  {
    hide InClusters, DataStart;
  }

  /** The sectors of every chain that was there are as they were. */
  lemma OtherData(g: Geo, d: Disk, e: Disk, cs: seq<nat>, ds: seq<nat>, i: nat, s: nat)
    requires Covers(g, d) && Covers(g, e) && Elsewhere(g, d, e, cs)
    requires Grown(FatOf(g, d), FatOf(g, e), cs, 0) && Chain(FatOf(g, d), ds) && i < |ds| && s < g.spc
    ensures ds[i] >= 2 && (DataLba(g, ds[i], s) < |d| ==> d[DataLba(g, ds[i], s)] == e[DataLba(g, ds[i], s)])
  {
    OtherChains(FatOf(g, d), FatOf(g, e), cs, ds);
    assert Link(FatOf(g, d), ds, i);
    ClusterOfIs(g, ds[i], s);
    hide FatOf, Grown, DataLba, ClusterOf, DataStart;
  }

  /** A file stored before is still stored, and its chain still reads back as it did. */
  lemma OtherFiles(g: Geo, d: Disk, e: Disk, cs: seq<nat>, ds: seq<nat>, data: seq<u8>)
    requires Covers(g, d) && Covers(g, e) && Elsewhere(g, d, e, cs)
    requires Grown(FatOf(g, d), FatOf(g, e), cs, 0) && Chain(FatOf(g, d), ds) && Stored(g, d, ds, data, |data|)
    ensures Chain(FatOf(g, e), ds) && Stored(g, e, ds, data, |data|)
    ensures ds[0] < LAST && forall n: nat :: n <= |data| ==> ReadFrom(g, e, ds[0], n) == ReadFrom(g, d, ds[0], n)
  {
    OtherChains(FatOf(g, d), FatOf(g, e), cs, ds);
    StillStored(g, d, e, cs, ds, data);
    hide Grown, Stored, FatOf, ReadFrom, Chain, Elsewhere, Covers;
    SameReading(g, d, e, ds, data, 0);
    forall n: nat | n <= |data| ensures ds[0] < LAST && ReadFrom(g, e, ds[0], n) == ReadFrom(g, d, ds[0], n) {
      SameReading(g, d, e, ds, data, n);
    }
  }

  /** Two disks that store the same data on the same chain are read alike. */
  lemma SameReading(g: Geo, d: Disk, e: Disk, ds: seq<nat>, data: seq<u8>, n: nat)
    requires Covers(g, d) && Chain(FatOf(g, d), ds) && Stored(g, d, ds, data, |data|)
    requires Covers(g, e) && Chain(FatOf(g, e), ds) && Stored(g, e, ds, data, |data|) && n <= |data|
    ensures g.spc > 0 && Sectors(d) && Sectors(e) && ds[0] < LAST && ReadFrom(g, e, ds[0], n) == ReadFrom(g, d, ds[0], n)
  {
    hide Stored, FatOf, ReadFrom, Link, Off, Cut;
    OffZero(g);
    ReadsBack(g, d, ds, data, 0, n);
    ReadsBack(g, e, ds, data, 0, n);
  }

  lemma StillStored(g: Geo, d: Disk, e: Disk, cs: seq<nat>, ds: seq<nat>, data: seq<u8>)
    requires Covers(g, d) && Covers(g, e) && Elsewhere(g, d, e, cs)
    requires Grown(FatOf(g, d), FatOf(g, e), cs, 0) && Chain(FatOf(g, d), ds) && Stored(g, d, ds, data, |data|)
    ensures Stored(g, e, ds, data, |data|)
  {
    hide Grown, FatOf, Chain, Off, DataLba, Padded, DataStart, InClusters, Covers;
    forall i, s | 0 <= i < |ds| && 0 <= s < g.spc && Off(g, i, s) < |data| ensures SectorStored(g, e, ds, data, i, s) {
      assert SectorStored(g, d, ds, data, i, s);
      OtherData(g, d, e, cs, ds, i, s);
    }
  }

  /** Data writes leave the copies of the table equal. */
  lemma StillMirrored(g: Geo, d: Disk, e: Disk, cs: seq<nat>)
    requires Covers(g, d) && Covers(g, e) && Mirrored(g, d) && OnlyClusters(g, d, e, cs)
    ensures Mirrored(g, e)
  {
    forall f, k | 0 <= f < g.numFats && 0 <= k < g.fatSize ensures SameCopy(g, e, f, k) {
      PosBound(g, f, k);
      PosBound(g, 0, k);
      assert SameCopy(g, d, f, k);
      assert !InClusters(g, cs, Pos(g, f, k)) && !InClusters(g, cs, Pos(g, 0, k));
    }
    hide Pos, DataStart, ClusterOf, Covers;
  }
}
