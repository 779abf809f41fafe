/** Where things are on a FAT32 volume, in sectors and bytes of the device. */
module FatLayout {
  import opened Words
  import opened LittleEndian
  import opened FatTable
  import opened FatChain
  import opened FatData
  import opened Fat32

  /** The copies of the table follow the reserved sectors one behind the other, cluster 2 starts just
      after the last of them, and each cluster starts where the one before it ends. */
  lemma ClustersInOrder(g: Geo, c: nat, s: nat)
    requires c >= 2 && g.numFats > 0 && g.fatSize > 0
    ensures DataLba(g, 2, 0) == g.fatStart + g.numFats * g.fatSize == Pos(g, g.numFats - 1, g.fatSize - 1) + 1
    ensures DataLba(g, c + 1, 0) == DataLba(g, c, 0) + g.spc
    ensures DataLba(g, c, s) == DataLba(g, c, 0) + s
  {
    OneLess(g.numFats, g.fatSize);
    OneMore(c - 2, g.spc);
    assert 0 * g.spc == 0;
  }

  lemma OneLess(f: nat, size: nat)
    requires f > 0
    ensures (f - 1) * size + size == f * size
  {}

  lemma OneMore(c: nat, spc: nat)
    ensures (c + 1) * spc == c * spc + spc
  {}

  /** What cluster_to_lba computes in 32 bits is that sector for every cluster of the table. */
  lemma ComputedLba(g: Geo, c: u32)
    requires GeoOk(g) && 2 <= c < 128 * g.fatSize
    ensures ClusterLba(g, c) == g.fatStart + g.numFats * g.fatSize + (c - 2) * g.spc
  {
    ClusterLbaIs(g, c);
    hide ClusterLba;
  }

  /** Entry c is four bytes, least significant first, at byte 4 c of the table; so are the places
      fat_next computes in 32 bits. */
  lemma EntryPlace(g: Geo, d: Disk, c: nat)
    requires Covers(g, d) && c < 128 * g.fatSize
    ensures
      var lba, at := g.fatStart + 4 * c / 512, 4 * c % 512;
      && lba < |d| && |d[lba]| == 512 && at + 4 <= 512 && FatSector(g, c) == lba && FatByte(c) == at
      && Entry(g, d, c) == d[lba][at] + 256 * d[lba][at + 1] as int + 65536 * d[lba][at + 2] as int + 16777216 * d[lba][at + 3] as int
  {
    PosBound(g, 0, c / 128);
    PosFirst(g, c / 128);
    Quarter(c);
    Load32Is(d[g.fatStart + c / 128], c % 128 * 4);
    SmallWord(4 * c);
    SmallWord(g.fatStart + c / 128);
    hide Load32, Pos, DataStart;
  }

  lemma Quarter(c: nat)
    ensures 4 * c / 512 == c / 128 && 4 * c % 512 == c % 128 * 4
  {}

  lemma SmallWord(x: nat)
    ensures x < 0x1_0000_0000 ==> x % 0x1_0000_0000 == x
  {}

  /** Chains in plain numbers: every entry names the next cluster in its low 28 bits, and the last holds
      0x0FFFFFF8 or more there. */
  lemma ChainIff(fat: seq<u32>, cs: seq<nat>)
    ensures Chain(fat, cs) <==>
      && |cs| > 0 && (forall i :: 0 <= i < |cs| ==> 2 <= cs[i] < |fat|)
      && (forall i :: 0 <= i < |cs| - 1 ==> fat[cs[i]] % 0x1000_0000 == cs[i + 1])
      && fat[cs[|cs| - 1]] % 0x1000_0000 >= 0x0FFF_FFF8
  {
    if |cs| > 0 && forall i :: 0 <= i < |cs| ==> 2 <= cs[i] < |fat| {
      forall i | 0 <= i < |cs|
        ensures Link(fat, cs, i) <==> if i + 1 < |cs| then fat[cs[i]] % 0x1000_0000 == cs[i + 1] else fat[cs[i]] % 0x1000_0000 >= 0x0FFF_FFF8 {}
      hide Link;
      if Chain(fat, cs) {
        assert Link(fat, cs, |cs| - 1);
      }
    } else if Chain(fat, cs) {
      forall i | 0 <= i < |cs| ensures 2 <= cs[i] < |fat| {
        assert Link(fat, cs, i);
      }
    }
  }

  /** A chain the allocator built ends in 0x0FFFFFFF and keeps the four reserved bits of every entry. */
  lemma BuiltChainEnds(fat0: seq<u32>, fat: seq<u32>, cs: seq<nat>)
    requires Grown(fat0, fat, cs, 0) && |cs| > 0
    ensures 0 <= cs[|cs| - 1] < |fat| && fat[cs[|cs| - 1]] % 0x1000_0000 == 0x0FFF_FFFF
    ensures forall c :: 0 <= c < |fat| ==> fat[c] / 0x1000_0000 == fat0[c] / 0x1000_0000
  {
    hide Merged, Distinct;
    LinkedAt(fat0, fat, cs, 0, |cs| - 1);
    forall c | 0 <= c < |fat| ensures fat[c] / 0x1000_0000 == fat0[c] / 0x1000_0000 {
      if c in cs {
        var i :| 0 <= i < |cs| && cs[i] == c;
        LinkedAt(fat0, fat, cs, 0, i);
      } else {
        assert cs[0..] == cs;
      }
    }
  }

  /** The clusters a file of n bytes gets are free ones from 2 on, in increasing order, and no free one
      is passed over; there are too few exactly when all free ones together are fewer than needed. */
  lemma LowestFree(g: Geo, d: Disk, n: nat)
    requires Covers(g, d) && !TooFull(g, d, n)
    ensures
      var fat, cs := FatOf(g, d), Wanted(g, d, n);
      && |cs| == ClustersNeeded(g, n)
      && (forall i :: 0 <= i < |cs| ==> 2 <= cs[i] < |fat| && fat[cs[i]] % 0x1000_0000 == 0)
      && (forall i, j :: 0 <= i < j < |cs| ==> cs[i] < cs[j])
      && (forall c :: 2 <= c < |fat| && fat[c] % 0x1000_0000 == 0 && c < cs[|cs| - 1] ==> c in cs)
  {
    hide FatOf, ClustersNeeded;
    FirstFrees(FatOf(g, d), ClustersNeeded(g, n));
  }

  lemma FirstFrees(fat: seq<u32>, n: nat)
    requires |fat| >= 2 && 0 < n <= |Frees(fat, 2)|
    ensures
      var cs := Frees(fat, 2)[..n];
      && (forall i :: 0 <= i < n ==> 2 <= cs[i] < |fat| && fat[cs[i]] % 0x1000_0000 == 0)
      && (forall i, j :: 0 <= i < j < n ==> cs[i] < cs[j])
      && (forall c :: 2 <= c < |fat| && fat[c] % 0x1000_0000 == 0 && c < cs[n - 1] ==> c in cs)
  {
    hide Frees;
    var all := Frees(fat, 2);
    var cs := all[..n];
    forall i | 0 <= i < n ensures 2 <= cs[i] < |fat| && fat[cs[i]] % 0x1000_0000 == 0 {
      FreesAre(fat, 2, cs[i]);
      assert cs[i] == all[i] && cs[i] in all;
    }
    forall i, j | 0 <= i < j < n ensures cs[i] < cs[j] {
      FreesIncrease(fat, 2, i, j);
    }
    forall c | 2 <= c < |fat| && fat[c] % 0x1000_0000 == 0 && c < cs[n - 1] ensures c in cs {
      FreesAre(fat, 2, c);
      var j :| 0 <= j < |all| && all[j] == c;
      if j >= n {
        NotLater(fat, n, j);
      }
      assert cs[j] == c;
    }
  }

  lemma NotLater(fat: seq<u32>, n: nat, j: nat)
    requires |fat| >= 2 && 0 < n <= j < |Frees(fat, 2)|
    ensures Frees(fat, 2)[n - 1] < Frees(fat, 2)[j]
  {
    FreesIncrease(fat, 2, n - 1, j);
  }

  /** The free clusters counted are all those from 2 on whose entry is zero in its low 28 bits. */
  lemma FreeClustersAre(g: Geo, d: Disk, c: nat)
    requires Covers(g, d)
    ensures c in FreeClusters(g, d) <==> 2 <= c < 128 * g.fatSize && FatOf(g, d)[c] % 0x1000_0000 == 0
    ensures forall i, j :: 0 <= i < j < |FreeClusters(g, d)| ==> FreeClusters(g, d)[i] < FreeClusters(g, d)[j]
  {
    FreeClustersIs(g, d);
    FreesAre(FatOf(g, d), 2, c);
    forall i, j | 0 <= i < j < |FreeClusters(g, d)| ensures FreeClusters(g, d)[i] < FreeClusters(g, d)[j] {
      FreesIncrease(FatOf(g, d), 2, i, j);
    }
    hide Frees, FatOf;
  }

  /** fat32_write_file reserves the fewest clusters that hold the data, and one for an empty file, when
      rounding the length up does not wrap. */
  lemma ClustersLeast(g: Geo, n: nat, k: nat)
    requires 0 < g.spc < 0x100 && n + g.spc * 512 - 1 < 0x1_0000_0000
    ensures k > 0 && k * (g.spc * 512) >= n <==> k >= ClustersNeeded(g, n)
  {
    var size := g.spc * 512;
    SmallWord(n + size - 1);
    Least(n, size, k);
  }

  lemma Least(n: nat, size: nat, k: nat)
    requires size > 0
    ensures
      var c := (n + size - 1) / size;
      k * size >= n <==> k >= c
  {
    var c := (n + size - 1) / size;
    CeilCovers(n, size);
    if k >= c {
      MulMono(c, k, size);
    } else {
      MulMono(k, c - 1, size);
      Floor(n + size - 1, size);
      OneLess(c, size);
    }
  }

  lemma Floor(x: nat, size: nat)
    requires size > 0
    ensures 0 <= x / size && x / size * size <= x
  {
    DivBound(x, size);
  }

  /** The bytes of a stored file: byte k is byte k mod 512 of sector (k div 512) mod spc of the chain's
      cluster number k div (512 spc), counted from the start of the data area; what is left of the last
      sector is zero. */
  lemma FileByte(g: Geo, d: Disk, cs: seq<nat>, data: seq<u8>, k: nat)
    requires GeoOk(g) && Sectors(d) && Stored(g, d, cs, data, |data|) && k / 512 / g.spc < |cs|
    requires k / 512 * 512 < |data|
    ensures
      var i, s := k / 512 / g.spc, k / 512 % g.spc;
      && 0 <= i && 2 <= cs[i]
      && var lba := g.fatStart + g.numFats * g.fatSize + (cs[i] - 2) * g.spc + s;
         0 <= lba < |d| && |d[lba]| == 512 && d[lba][k % 512] == if k < |data| then data[k] else 0
  {
    var j := k / 512;
    var i, s := j / g.spc, j % g.spc;
    PlaceOf(j, g.spc);
    OffPlace(g, i, s, k);
    assert SectorStored(g, d, cs, data, i, s);
    hide Off, Stored;
  }

  lemma PlaceOf(j: nat, spc: nat)
    requires spc > 0
    ensures 0 <= j / spc && 0 <= j % spc < spc && j / spc * spc + j % spc == j
  {
    DivBound(j, spc);
  }

  lemma OffPlace(g: Geo, i: nat, s: nat, k: nat)
    requires i * g.spc + s == k / 512
    ensures Off(g, i, s) == k / 512 * 512 && Off(g, i, s) + k % 512 == k
  {}
}
