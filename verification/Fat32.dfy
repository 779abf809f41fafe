/** The cluster-chain and data parts of kernel/fat32.c on a device of 512-byte sectors.  A sector
    operation succeeds exactly on sectors the device has, and reports success as true, the
    convention of fat32.c and of kernel/block.c. */
module Fat32 {
  import opened Words
  import opened LittleEndian
  import opened FatTable
  import opened FatChain
  import opened FatData

  class Device {
    var disk: Disk

    constructor (d: Disk)
      ensures disk == d
    {
      disk := d;
    }

    method Read(lba: u32) returns (ok: bool, sec: seq<u8>)
      requires Sectors(disk)
      ensures ok == (lba < |disk|) && |sec| == 512
      ensures ok ==> sec == disk[lba]
    {
      if lba < |disk| {
        return true, disk[lba];
      }
      return false, seq(512, _ => 0);
    }

    method Write(lba: u32, sec: seq<u8>) returns (ok: bool)
      modifies this
      ensures ok == (lba < |old(disk)|)
      ensures disk == if ok then old(disk)[lba := sec] else old(disk)
    {
      if lba < |disk| {
        disk := disk[lba := sec];
        return true;
      }
      return false;
    }
  }

  class Volume {
    const g: Geo
    const dev: Device

    constructor (geo: Geo, device: Device)
      ensures g == geo && dev == device
    {
      g, dev := geo, device;
    }

    /** fat_next. */
    method NextCluster(cluster: u32) returns (next: u32)
      requires Sectors(dev.disk)
      ensures next == FatNext(g, dev.disk, cluster)
    {
      hide Load32, FatSector, FatByte, Low28;
      var ok, sec := dev.Read(FatSector(g, cluster));
      if !ok { return EOC; }
      return Low28(Load32(sec, FatByte(cluster)));
    }

    /** fat_write_entry: every copy of the table gets the patched sector. */
    method SetCluster(cluster: u32, value: u32)
      requires Covers(g, dev.disk) && cluster < Entries(g)
      modifies dev
      ensures dev.disk == WriteEntry(g, old(dev.disk), cluster, value)
      ensures Kept(g, old(dev.disk), dev.disk)
      ensures FatOf(g, dev.disk) == SetEntry(FatOf(g, old(dev.disk)), cluster, value)
    {
      ghost var d := dev.disk;
      ghost var k := cluster / 128;
      OffsetIs(g, cluster);
      PosBound(g, 0, k);
      PosFirst(g, k);
      WriteEntrySets(g, d, cluster, value);
      WriteEntryKept(g, d, cluster, value);
      SmallTable(g);
      hide Load32, Patched, Pos, FatOf, SetEntry, Kept, DataStart;
      var off := cluster * 4;
      var lba := g.fatStart + off / 512;
      var ok, sec := dev.Read(lba);
      if !ok { return; }
      sec := Patched(sec, off % 512, value);
      var f := 0;
      while f < g.numFats
        modifies dev
        invariant 0 <= f <= g.numFats && |dev.disk| == |d|
        invariant dev.disk == WriteCopies(g, d, k, sec, f)
      {
        PosBound(g, f, k);
        PosIs(g, f, k);
        ok := dev.Write(lba + f * g.fatSize, sec);
        f := f + 1;
      }
    }

    /** alloc_cluster: the first free cluster from 2 on, marked as an end; 0 when there is none. */
    method AllocCluster() returns (cl: u32)
      requires Covers(g, dev.disk)
      modifies dev
      ensures Kept(g, old(dev.disk), dev.disk)
      ensures
        var fat := FatOf(g, old(dev.disk));
        var c := FirstFree(fat, 2);
        if c == |fat| then cl == 0 && dev.disk == old(dev.disk)
        else cl == c && FatOf(g, dev.disk) == SetEntry(fat, c, EOC)
    {
      ghost var d := dev.disk;
      ghost var fat := FatOf(g, d);
      var found := FindFree();
      FirstFreeIs(fat, 2, if found == 0 then |fat| else found);
      KeptSelf(g, d);
      hide Kept, Covers, FirstFree, FatOf, SetEntry;
      if found == 0 { return 0; }
      SetCluster(found, EOC);
      return found;
    }

    /** The scan of alloc_cluster over the sectors of the first table. */
    method FindFree() returns (cl: u32)
      requires Covers(g, dev.disk)
      ensures
        var fat := FatOf(g, dev.disk);
        if cl == 0 then forall k :: 2 <= k < |fat| ==> Next(fat, k) != 0
        else 2 <= cl < |fat| && Next(fat, cl) == 0 && forall k :: 2 <= k < cl ==> Next(fat, k) != 0
    {
      hide FatOf, Load32, And, DataStart;
      ghost var d := dev.disk;
      ghost var fat := FatOf(g, d);
      for i := 0 to g.fatSize
        invariant forall k :: 2 <= k < 128 * i ==> Next(fat, k) != 0
      {
        PosBound(g, 0, i);
        PosFirst(g, i);
        SmallTable(g);
        var ok, sec := dev.Read(g.fatStart + i);
        if !ok { break; }
        for j := 0 to 128
          invariant forall k :: 2 <= k < 128 * i + j ==> Next(fat, k) != 0
        {
          var c := 128 * i + j;
          if c >= 2 {
            EntryRead(g, d, i, j);
            var v := Low28(Load32(sec, j * 4));
            if v == 0 { return c; }
          }
        }
      }
      return 0;
    }

    /** The allocation loop of fat32_write_file: the n lowest free clusters linked into a chain, or
        the table as it was when the volume has fewer free ones. */
    method AllocChain(n: nat) returns (ok: bool, first: u32, ghost cs: seq<nat>)
      requires Covers(g, dev.disk) && n > 0
      modifies dev
      ensures Kept(g, old(dev.disk), dev.disk) && Covers(g, dev.disk)
      ensures ok == (|FreeClusters(g, old(dev.disk))| >= n)
      ensures ok ==> cs == FreeClusters(g, old(dev.disk))[..n] && first == cs[0]
      ensures ok ==> Grown(FatOf(g, old(dev.disk)), FatOf(g, dev.disk), cs, 0)
      ensures !ok ==> FatOf(g, dev.disk) == FatOf(g, old(dev.disk))
    {
      ghost var d := dev.disk;
      ghost var fat0 := FatOf(g, d);
      cs := [];
      first := 0;
      var prev: u32 := 0;
      KeptSelf(g, d);
      SmallFat(g);
      GrownStart(fat0);
      FreeClustersIs(g, d);
      LowestAre(fat0, []);
      hide Kept, Covers, FatOf, Grown, Frees, FreeClusters, SetEntry, Lowest;
      for i := 0 to n
        modifies dev
        invariant |cs| == i && Lowest(fat0, cs) && Kept(g, d, dev.disk) && Covers(g, dev.disk)
        invariant Grown(fat0, FatOf(g, dev.disk), cs, 0)
        invariant if i == 0 then first == prev == 0 else first == cs[0] && prev == cs[i - 1]
      {
        ghost var e := dev.disk;
        var cl := AllocNext(prev, fat0, cs);
        KeptTrans(g, d, e, dev.disk);
        if cl == 0 {
          e := dev.disk;
          Rollback(first, prev, fat0, cs);
          KeptTrans(g, d, e, dev.disk);
          return false, 0, [];
        }
        if first == 0 { first := cl; }
        prev := cl;
        cs := cs + [cl];
      }
      EndChain(prev, fat0, cs, d);
      LowestAre(fat0, cs);
      ok := true;
    }

    /** The last table write of the loop: the end mark, once more. */
    method EndChain(prev: u32, ghost fat0: seq<u32>, ghost cs: seq<nat>, ghost d: Disk)
      requires Covers(g, d) && Kept(g, d, dev.disk) && Covers(g, dev.disk) && |cs| > 0 && prev == cs[|cs| - 1]
      requires Grown(fat0, FatOf(g, dev.disk), cs, 0)
      modifies dev
      ensures Kept(g, d, dev.disk) && Covers(g, dev.disk) && Grown(fat0, FatOf(g, dev.disk), cs, 0)
    {
      hide Kept, Covers, FatOf, Grown, SetEntry;
      ghost var e := dev.disk;
      EndAgain(fat0, FatOf(g, e), cs);
      SetCluster(prev, EOC);
      KeptTrans(g, d, e, dev.disk);
    }

    /** One round of the allocation loop. */
    method AllocNext(prev: u32, ghost fat0: seq<u32>, ghost cs: seq<nat>) returns (cl: u32)
      requires Covers(g, dev.disk) && Grown(fat0, FatOf(g, dev.disk), cs, 0)
      requires if |cs| == 0 then prev == 0 else prev == cs[|cs| - 1]
      requires Lowest(fat0, cs)
      modifies dev
      ensures Kept(g, old(dev.disk), dev.disk) && Covers(g, dev.disk)
      ensures cl == 0 ==> dev.disk == old(dev.disk) && |Frees(fat0, 2)| == |cs|
      ensures cl != 0 ==> Grown(fat0, FatOf(g, dev.disk), cs + [cl], 0) && Lowest(fat0, cs + [cl])
    {
      ghost var d := dev.disk;
      ghost var fat := FatOf(g, d);
      LastOf(fat0, fat, cs);
      GrownCounts(fat0, fat, cs);
      FreesCount(fat0);
      GrownSize(fat0, fat, cs);
      hide Kept, Covers, FatOf, Grown, FreeSet, SetEntry, Frees, FirstFree;
      cl := AllocCluster();
      if cl == 0 { return; }
      NextFree(fat0, fat, cs, cl);
      GrownStep(fat0, fat, cs, cl);
      ExtendedIs(fat, cs, cl);
      if prev != 0 {
        ghost var e := dev.disk;
        SetCluster(prev, cl);
        KeptTrans(g, d, e, dev.disk);
      }
    }

    /** The rollback loop of fat32_write_file. */
    method Rollback(first: u32, prev: u32, ghost fat0: seq<u32>, ghost cs: seq<nat>)
      requires Covers(g, dev.disk) && Grown(fat0, FatOf(g, dev.disk), cs, 0)
      requires if |cs| == 0 then first == prev == 0 else first == cs[0] && prev == cs[|cs| - 1]
      modifies dev
      ensures Kept(g, old(dev.disk), dev.disk) && Covers(g, dev.disk) && FatOf(g, dev.disk) == fat0
    {
      ghost var d := dev.disk;
      var c := first;
      ghost var k: nat := 0;
      KeptSelf(g, d);
      RollbackStart(fat0, FatOf(g, d), cs);
      hide Kept, Covers, FatOf, Grown, SetEntry;
      while 2 <= c < LAST
        modifies dev
        invariant k <= |cs| && Kept(g, d, dev.disk) && Covers(g, dev.disk)
        invariant Grown(fat0, FatOf(g, dev.disk), cs, k)
        invariant if k < |cs| then c == cs[k] && 2 <= c < LAST else c < 2
        decreases |cs| - k
      {
        ghost var e := dev.disk;
        LinkedBusy(fat0, FatOf(g, e), cs, k, k);
        LinkedAt(fat0, FatOf(g, e), cs, k, k);
        FatNextIs(g, e, c);
        var next := NextCluster(c);
        GrownBack(fat0, FatOf(g, e), cs, k);
        SetCluster(c, 0);
        KeptTrans(g, d, e, dev.disk);
        k := k + 1;
        if c == prev { break; }
        c := next;
      }
      GrownNone(fat0, FatOf(g, dev.disk), cs);
    }

    /** The data loop of fat32_write_file along the chain cs: every sector the data needs, padded
        with zeros; it fails when one of them is not on the device. */
    method WriteData(data: seq<u8>, first: u32, ghost cs: seq<nat>) returns (ok: bool)
      requires Covers(g, dev.disk) && Chain(FatOf(g, dev.disk), cs) && Distinct(cs) && first == cs[0]
      requires |data| < 0x1_0000_0000
      modifies dev
      ensures Covers(g, dev.disk) && OnlyClusters(g, old(dev.disk), dev.disk, cs)
      ensures ok == OnDevice(g, dev.disk, cs, |data|)
      ensures ok ==> Stored(g, dev.disk, cs, data, |data|)
    {
      ghost var d := dev.disk;
      var off: nat := 0;
      var cl := first;
      ghost var i: nat := 0;
      ChainClusters(g, d, cs);
      NothingStored(g, d, cs, data);
      hide Covers, Stored, OnDevice, OnlyClusters, Off, Chain, FatOf, FatNext;
      while cl < LAST && off < |data|
        modifies dev
        invariant i <= |cs| && Covers(g, dev.disk) && OnlyClusters(g, d, dev.disk, cs)
        invariant off == Min(Off(g, i, 0), |data|)
        invariant i < |cs| ==> cl == cs[i]
        invariant i == |cs| ==> cl >= LAST
        invariant Stored(g, dev.disk, cs, data, off) && OnDevice(g, dev.disk, cs, off)
        decreases |cs| - i
      {
        ok, off := WriteCluster(data, off, cl, cs, i, d);
        if !ok { return false; }
        FollowChain(g, d, dev.disk, cs, i);
        cl := NextCluster(cl);
        i := i + 1;
      }
      DataDone(g, dev.disk, cs, data, i, off);
      ok := true;
    }

    /** The sectors of one cluster. */
    method WriteCluster(data: seq<u8>, start: nat, cl: u32, ghost cs: seq<nat>, ghost i: nat, ghost d: Disk)
      returns (ok: bool, off: nat)
      requires Covers(g, dev.disk) && Covers(g, d) && OnlyClusters(g, d, dev.disk, cs) && Clusters(g, cs) && Distinct(cs)
      requires i < |cs| && cl == cs[i] && start == Off(g, i, 0) < |data| < 0x1_0000_0000
      requires Stored(g, dev.disk, cs, data, start) && OnDevice(g, dev.disk, cs, start)
      modifies dev
      ensures Covers(g, dev.disk) && OnlyClusters(g, d, dev.disk, cs)
      ensures ok ==> off == Min(Off(g, i + 1, 0), |data|)
      ensures ok ==> Stored(g, dev.disk, cs, data, off) && OnDevice(g, dev.disk, cs, off)
      ensures !ok ==> !OnDevice(g, dev.disk, cs, |data|)
    {
      ClusterLbaIs(g, cl);
      hide Covers, Stored, OnDevice, OnlyClusters, Off, DataLba, ClusterLba, Padded;
      var lba := ClusterLba(g, cl);
      var s := 0;
      off := start;
      while s < g.spc && off < |data|
        modifies dev
        invariant 0 <= s <= g.spc && Covers(g, dev.disk) && OnlyClusters(g, d, dev.disk, cs)
        invariant off == Min(Off(g, i, s), |data|)
        invariant Stored(g, dev.disk, cs, data, off) && OnDevice(g, dev.disk, cs, off)
      {
        ghost var e := dev.disk;
        DataLbaNext(g, cl, s);
        OffNext(g, i, s);
        var take := Min(|data| - off, 512);
        ok := dev.Write(lba + s, Padded(data, off));
        if !ok {
          OffDevice(g, e, cs, i, s, |data|);
          return;
        }
        OneSector(g, d, e, cs, data, i, s);
        off := off + take;
        s := s + 1;
      }
      OffNext(g, i, s);
      OffMono(g, i, s);
      ok := true;
    }

    /** fat32_write_file without its directory entry, with the number it returns.  Either the volume
        had too few free clusters and its table and data are as they were, the whole disk byte for
        byte if the copies of the table agreed; or the lowest free clusters are a new chain, which
        stores the data when all the sectors it needs are on the device. */
    method WriteFile(data: seq<u8>) returns (ret: int, ghost r: Outcome, first: u32, ghost cs: seq<nat>)
      requires Covers(g, dev.disk) && |data| < 0x1_0000_0000
      modifies dev
      ensures Covers(g, dev.disk) && (Mirrored(g, old(dev.disk)) ==> Mirrored(g, dev.disk))
      ensures ret == Returned(r, |data|)
      ensures r == NoSpace <==> TooFull(g, old(dev.disk), |data|)
      ensures r == IoError <==> RunsOff(g, old(dev.disk), |data|)
      ensures r == NoSpace ==> FatOf(g, dev.disk) == FatOf(g, old(dev.disk)) && SameData(g, old(dev.disk), dev.disk)
      ensures r == NoSpace && Mirrored(g, old(dev.disk)) ==> dev.disk == old(dev.disk)
      ensures r != NoSpace ==>
        && cs == Wanted(g, old(dev.disk), |data|) && first == cs[0]
        && Grown(FatOf(g, old(dev.disk)), FatOf(g, dev.disk), cs, 0) && Chain(FatOf(g, dev.disk), cs)
        && FatOf(g, dev.disk) != FatOf(g, old(dev.disk))
        && Elsewhere(g, old(dev.disk), dev.disk, cs)
      ensures r == Written ==> Stored(g, dev.disk, cs, data, |data|)
      ensures ret >= 0 ==> r == Written && ret == |data| && ReadFrom(g, dev.disk, first, |data|) == data
    {
      hide Kept, Mirrored, FatOf, Frees, Grown, Chain, Elsewhere, OnDevice, Stored, ClustersNeeded, LastLba, FreeClusters;
      ghost var d := dev.disk;
      var ok;
      ok, first, cs := AllocChain(ClustersNeeded(g, |data|));
      ghost var m := dev.disk;
      KeptParts(g, d, m);
      if !ok {
        if Mirrored(g, d) {
          DiskDetermined(g, d, m);
        }
        return -1, NoSpace, 0, [];
      }
      GrownIsChain(FatOf(g, d), FatOf(g, m), cs);
      GrownChanges(FatOf(g, d), FatOf(g, m), cs);
      ok := WriteData(data, first, cs);
      WantedOnDevice(g, d, dev.disk, |data|);
      FatUntouched(g, m, dev.disk, cs);
      ElsewhereFrom(g, d, m, dev.disk, cs);
      if Mirrored(g, d) {
        StillMirrored(g, m, dev.disk, cs);
      }
      if !ok { return -1, IoError, first, cs; }
      r := Written;
      ret := Signed32(|data|);
      ReadsBackIff(g, dev.disk, cs, data);
      GeoBounds(g, dev.disk);
    }

    /** A file written and read again through its first cluster and its length: whenever the write
        reports success the bytes are the ones written, and every other file still reads the same. */
    method WriteThenRead(data: seq<u8>, out: array<u8>, ghost ds: seq<nat>, ghost other: seq<u8>) returns (ret: int)
      requires Covers(g, dev.disk) && |data| == out.Length < 0x1_0000_0000
      modifies dev, out
      ensures ret >= 0 ==> ret == |data| && out[..] == data
      ensures ret < 0 <==> TooFull(g, old(dev.disk), |data|) || RunsOff(g, old(dev.disk), |data|) || |data| >= 0x8000_0000
      ensures Covers(g, dev.disk)
      ensures old(Chain(FatOf(g, dev.disk), ds) && Stored(g, dev.disk, ds, other, |other|)) ==>
        Chain(FatOf(g, dev.disk), ds) && Stored(g, dev.disk, ds, other, |other|)
    {
      hide FatOf, Frees, Grown, Chain, Elsewhere, Stored, ClustersNeeded, TooFull, RunsOff, Wanted, SameData, Mirrored, ReadFrom;
      ghost var d := dev.disk;
      ghost var r, cs;
      var first;
      ret, r, first, cs := WriteFile(data);
      if Chain(FatOf(g, d), ds) && Stored(g, d, ds, other, |other|) {
        if r == NoSpace {
          TableSame(g, d, dev.disk, ds, other);
        } else {
          OtherFiles(g, d, dev.disk, cs, ds, other);
        }
      }
      if ret < 0 { return; }
      GeoBounds(g, dev.disk);
      var n := ReadFile(out, first, |data|, |data|);
      assert |out[..n]| == |data|;
      assert out[..n] == out[..];
    }

    /** The data part of fat32_read_file, for a directory entry with this cluster and size. */
    method ReadFile(out: array<u8>, first: u32, size: u32, max: u32) returns (written: nat)
      requires Sectors(dev.disk) && g.spc > 0 && max <= out.Length
      modifies out
      ensures written <= max && out[..written] == ReadFrom(g, dev.disk, first, Min(size, max))
      ensures forall k :: written <= k < out.Length ==> out[k] == old(out[k])
    {
      ghost var all;
      written, all := ReadChain(out, first, if size > max then max else size);
      assert out[..written] == all;
    }

    /** The loop over the clusters. */
    method ReadChain(out: array<u8>, first: u32, count: nat) returns (written: nat, ghost done: seq<u8>)
      requires Sectors(dev.disk) && g.spc > 0 && count <= out.Length
      modifies out
      ensures done == ReadFrom(g, dev.disk, first, count) && |done| == written <= count
      ensures Placed(out[..], 0, done)
      ensures forall k :: written <= k < out.Length ==> out[k] == old(out[k])
    {
      ghost var d := dev.disk;
      ghost var all := ReadFrom(g, d, first, count);
      var cluster: u32, remaining: nat := first, count;
      done := [];
      written := 0;
      CatNone(all);
      hide ReadFrom, ReadSectors, FatNext, ClusterLba, Sectors, Cat, Placed;
      PlacedNone(out[..]);
      while cluster < LAST && remaining > 0
        modifies out
        invariant dev.disk == d && written + remaining == count && |done| == written
        invariant Cat(done, ReadFrom(g, d, cluster, remaining)) == all
        invariant Placed(out[..], 0, done)
        invariant forall k :: written <= k < out.Length ==> out[k] == old(out[k])
        decreases remaining
      {
        ghost var before := out[..];
        ReadRound(g, d, cluster, remaining, done, all);
        var n, ok := ReadCluster(out, written, cluster, remaining);
        ghost var got := ReadSectors(d, ClusterLba(g, cluster), g.spc, remaining);
        PlacedMore(before, out[..], written, done, got.bytes);
        done := Cat(done, got.bytes);
        written := written + n;
        remaining := remaining - n;
        if !ok { return; }
        cluster := NextCluster(cluster);
      }
      ReadEnd(g, d, cluster, remaining);
      CatNone(done);
    }

    /** The sectors of one cluster, into out from byte at on. */
    method ReadCluster(out: array<u8>, at: nat, cluster: u32, remaining: nat) returns (n: nat, ok: bool)
      requires Sectors(dev.disk) && at + remaining <= out.Length
      modifies out
      ensures
        var got := ReadSectors(dev.disk, ClusterLba(g, cluster), g.spc, remaining);
        n == |got.bytes| && ok == got.ok && Placed(out[..], at, got.bytes)
      ensures forall k :: 0 <= k < out.Length && (k < at || at + n <= k) ==> out[k] == old(out[k])
    {
      hide ReadSectors, ClusterLba, Cat, Sectors, Placed;
      ghost var d := dev.disk;
      ghost var got := ReadSectors(d, ClusterLba(g, cluster), g.spc, remaining);
      var lba := ClusterLba(g, cluster);
      ghost var part: seq<u8> := [];
      var s: nat := 0;
      n, ok := 0, true;
      SectorsStart(d, lba, g.spc, remaining);
      PlacedNothing(out[..], at);
      while s < g.spc && n < remaining
        modifies out
        invariant dev.disk == d && s <= g.spc && n <= remaining && |part| == n && ok
        invariant Rest(d, lba, s, g.spc, remaining - n, part) == got
        invariant Placed(out[..], at, part)
        invariant forall k :: 0 <= k < out.Length && (k < at || at + n <= k) ==> out[k] == old(out[k])
      {
        RestStep(d, lba, s, g.spc, remaining - n, part);
        var read, sec := dev.Read((lba + s) % 0x1_0000_0000);
        if !read { ok := false; break; }
        var take := if remaining - n < 512 then remaining - n else 512;
        ghost var before := out[..];
        CopyOut(out, at + n, sec, take);
        PlacedOnto(before, out[..], at, part, sec[..take]);
        part := Cat(part, sec[..take]);
        n := n + take;
        s := s + 1;
      }
      if ok {
        RestNone(d, lba, s, g.spc, remaining - n, part);
      }
    }

    /** The byte copy of fat32_read_file. */
    method CopyOut(out: array<u8>, at: nat, sec: seq<u8>, take: nat)
      requires take <= |sec| && at + take <= out.Length
      modifies out
      ensures forall k :: at <= k < at + take ==> out[k] == sec[k - at]
      ensures forall k :: 0 <= k < out.Length && (k < at || at + take <= k) ==> out[k] == old(out[k])
    {
      for i := 0 to take
        modifies out
        invariant forall k :: at <= k < at + i ==> out[k] == sec[k - at]
        invariant forall k :: 0 <= k < out.Length && (k < at || at + i <= k) ==> out[k] == old(out[k])
      {
        out[at + i] := sec[i];
      }
    }
  }

  /** The bytes stand in the buffer from at on. */
  ghost predicate Placed(o: seq<u8>, at: nat, bytes: seq<u8>) {
    at + |bytes| <= |o| && forall k :: at <= k < at + |bytes| ==> o[k] == bytes[k - at]
  }

  lemma PlacedNothing(o: seq<u8>, at: nat)
    ensures at <= |o| ==> Placed(o, at, [])
  {}

  lemma PlacedNone(o: seq<u8>)
    ensures Placed(o, 0, [])
  {}

  lemma PlacedOnto(o: seq<u8>, p: seq<u8>, at: nat, a: seq<u8>, b: seq<u8>)
    requires |o| == |p| && Placed(o, at, a) && at + |a| + |b| <= |o|
    requires forall k :: 0 <= k < |o| && (k < at + |a| || at + |a| + |b| <= k) ==> p[k] == o[k]
    requires forall k :: at + |a| <= k < at + |a| + |b| ==> p[k] == b[k - at - |a|]
    ensures Placed(p, at, Cat(a, b))
  {}

  lemma PlacedMore(o: seq<u8>, p: seq<u8>, w: nat, a: seq<u8>, b: seq<u8>)
    requires |o| == |p| && |a| == w && Placed(o, 0, a) && Placed(p, w, b)
    requires forall k :: 0 <= k < |o| && (k < w || w + |b| <= k) ==> p[k] == o[k]
    ensures Placed(p, 0, Cat(a, b))
  {}

  datatype Outcome = Written | NoSpace | IoError

  /** (int)len. */
  function Signed32(n: nat): int {
    if n < 0x8000_0000 then n else n - 0x1_0000_0000
  }

  /** What fat32_write_file returns: -1, or the length as a signed number. */
  function Returned(r: Outcome, n: nat): int {
    if r == Written then Signed32(n) else -1
  }

  /** A write that is stored is reported as a failure, a negative number, exactly when it has 2^31
      bytes or more; among these are all the lengths whose clusters do not cover the data. */
  lemma StoredReportsFailureIff(g: Geo, n: nat)
    requires 0 < g.spc < 0x100 && n < 0x1_0000_0000
    ensures Returned(Written, n) < 0 <==> n >= 0x8000_0000
    ensures Off(g, ClustersNeeded(g, n), 0) < n ==> Returned(Written, n) < 0
    ensures Returned(Written, 0x8000_0000) == -0x8000_0000
  {
    ClustersCoverIff(g, n);
    hide Off, ClustersNeeded;
  }

  /** The free clusters of the volume, lowest first. */
  function FreeClusters(g: Geo, d: Disk): seq<nat>
    requires Covers(g, d)
  {
    Frees(FatOf(g, d), 2)
  }

  lemma FreeClustersIs(g: Geo, d: Disk)
    requires Covers(g, d)
    ensures 2 <= |FatOf(g, d)| && FreeClusters(g, d) == Frees(FatOf(g, d), 2)
  {}

  lemma LowestAre(fat: seq<u32>, cs: seq<nat>)
    requires 2 <= |fat|
    ensures Lowest(fat, cs) ==> |cs| <= |Frees(fat, 2)| && cs == Frees(fat, 2)[..|cs|]
    ensures Lowest(fat, [])
  {
    hide Frees;
  }

  /** The volume has too few free clusters for n bytes. */
  predicate TooFull(g: Geo, d: Disk, n: nat)
    requires Covers(g, d)
  {
    |FreeClusters(g, d)| < ClustersNeeded(g, n)
  }

  /** The clusters n bytes will get: the lowest free ones. */
  function Wanted(g: Geo, d: Disk, n: nat): (cs: seq<nat>)
    requires Covers(g, d) && !TooFull(g, d, n)
    ensures |cs| == ClustersNeeded(g, n)
  {
    FreeClusters(g, d)[..ClustersNeeded(g, n)]
  }

  lemma WantedClusters(g: Geo, d: Disk, n: nat)
    requires Covers(g, d) && !TooFull(g, d, n)
    ensures Clusters(g, Wanted(g, d, n)) && Increasing(Wanted(g, d, n))
  {
    var fat, cs := FatOf(g, d), Wanted(g, d, n);
    forall i | 0 <= i < |cs| ensures 2 <= cs[i] < Entries(g) {
      FreesAre(fat, 2, cs[i]);
      assert cs[i] == Frees(fat, 2)[i];
    }
    forall i, j | 0 <= i < j < |cs| ensures cs[i] < cs[j] {
      FreesIncrease(fat, 2, i, j);
    }
    hide Frees, FatOf, ClustersNeeded;
  }

  /** There is space, but the last sector n bytes need lies past the end of the device. */
  predicate RunsOff(g: Geo, d: Disk, n: nat)
    requires Covers(g, d)
  {
    !TooFull(g, d, n) && n > 0 && (WantedClusters(g, d, n); LastLba(g, Wanted(g, d, n), n) >= |d|)
  }

  lemma WantedOnDevice(g: Geo, d: Disk, e: Disk, n: nat)
    requires Covers(g, d) && |d| == |e| && !TooFull(g, d, n)
    ensures OnDevice(g, e, Wanted(g, d, n), n) <==> !RunsOff(g, d, n)
  {
    WantedClusters(g, d, n);
    OnDeviceIff(g, e, Wanted(g, d, n), n);
    hide OnDevice, LastLba, Wanted, Clusters, Increasing;
  }

  /** What was taken shows in the table. */
  lemma GrownChanges(fat0: seq<u32>, fat: seq<u32>, cs: seq<nat>)
    requires Grown(fat0, fat, cs, 0) && |cs| > 0
    ensures fat != fat0
  {
    LinkedAt(fat0, fat, cs, 0, 0);
    LinkedBusy(fat0, fat, cs, 0, 0);
    hide Grown, Merged;
  }

  /** An empty volume whose device ends with the table: a write of one byte takes cluster 2, fails,
      and leaves it taken. */
  lemma WriteRunsOff()
    ensures
      var g := Geo(1, 1, 1, 1);
      var d: Disk := seq(2, _ => seq(512, _ => 0));
      Covers(g, d) && !TooFull(g, d, 1) && Wanted(g, d, 1) == [2] && RunsOff(g, d, 1)
  {
    var g := Geo(1, 1, 1, 1);
    var d: Disk := seq(2, _ => seq(512, _ => 0));
    assert DataStart(g) == 2 && Entries(g) == 128;
    var fat := FatOf(g, d);
    EntryRead(g, d, 0, 2);
    Load32Is(d[1], 8);
    assert fat[2] == 0 && Next(fat, 2) == 0;
    assert Frees(fat, 2) == [2] + Frees(fat, 3);
    assert ClustersNeeded(g, 1) == 1;
    assert Wanted(g, d, 1) == [2];
    assert Off(g, 1, 0) == 512 && LastSector(g, [2], 1) == 0;
  }

  /** A disk with the same table and data outside it stores what it stored. */
  lemma TableSame(g: Geo, d: Disk, e: Disk, ds: seq<nat>, data: seq<u8>)
    requires Covers(g, d) && Covers(g, e) && SameData(g, d, e) && FatOf(g, d) == FatOf(g, e)
    requires Chain(FatOf(g, d), ds) && Stored(g, d, ds, data, |data|)
    ensures Chain(FatOf(g, e), ds) && Stored(g, e, ds, data, |data|)
  {
    hide FatOf, Chain, Off, Padded;
    ChainClusters(g, d, ds);
    forall i, s | 0 <= i < |ds| && 0 <= s < g.spc && Off(g, i, s) < |data| ensures SectorStored(g, e, ds, data, i, s) {
      assert SectorStored(g, d, ds, data, i, s);
      DataLbaNext(g, ds[i], s);
    }
  }

  /** What every table write keeps: the disk's shape, its data, the equality of the copies. */
  ghost predicate Kept(g: Geo, d: Disk, e: Disk)
    requires Covers(g, d)
  {
    Covers(g, e) && SameData(g, d, e) && (Mirrored(g, d) ==> Mirrored(g, e))
  }

  lemma KeptSelf(g: Geo, d: Disk)
    requires Covers(g, d)
    ensures Kept(g, d, d)
  {}

  lemma KeptTrans(g: Geo, d: Disk, e: Disk, f: Disk)
    requires Covers(g, d) && Kept(g, d, e) && Covers(g, e) && Kept(g, e, f)
    ensures Kept(g, d, f) && Covers(g, f)
  {
    hide Mirrored, Sectors, DataStart, GeoOk;
  }

  lemma SmallFat(g: Geo)
    requires GeoOk(g)
    ensures Entries(g) <= LAST
  {}

  lemma RollbackStart(fat0: seq<u32>, fat: seq<u32>, cs: seq<nat>)
    requires Grown(fat0, fat, cs, 0)
    ensures |fat| == |fat0| <= LAST && forall i :: 0 <= i < |cs| ==> 2 <= cs[i] < |fat|
  {}

  lemma ExtendedIs(fat: seq<u32>, cs: seq<nat>, cl: u32)
    requires cl < |fat| && (|cs| > 0 ==> cs[|cs| - 1] < |fat|)
    ensures Extended(fat, cs, cl) == if |cs| == 0 then SetEntry(fat, cl, EOC) else SetEntry(SetEntry(fat, cl, EOC), cs[|cs| - 1], cl)
  {}

  lemma {:induction false} FirstFreeIs(fat: seq<u32>, i: nat, c: nat)
    requires i <= c <= |fat| && (forall k :: i <= k < c ==> Next(fat, k) != 0)
    requires c < |fat| ==> Next(fat, c) == 0
    ensures FirstFree(fat, i) == c
    decreases c - i
  {
    if i < c {
      FirstFreeIs(fat, i + 1, c);
    }
  }

  lemma EntryRead(g: Geo, d: Disk, i: nat, j: nat)
    requires Covers(g, d) && i < g.fatSize && j < 128
    ensures g.fatStart + i < |d| && FatOf(g, d)[128 * i + j] == Load32(d[g.fatStart + i], j * 4)
  {
    PosBound(g, 0, i);
    PosFirst(g, i);
    hide Load32, Pos;
    assert (128 * i + j) / 128 == i && (128 * i + j) % 128 == j;
  }

  lemma PosIs(g: Geo, f: nat, k: nat)
    ensures Pos(g, f, k) == g.fatStart + k + f * g.fatSize
  {}

  /** Every sector of the table has a 32-bit number. */
  lemma SmallTable(g: Geo)
    requires GeoOk(g)
    ensures DataStart(g) < 0x1_0000_0000
  {
    MulPositive(Entries(g), g.spc);
  }

  lemma WriteEntryKept(g: Geo, d: Disk, c: nat, value: u32)
    requires Covers(g, d) && c < Entries(g)
    ensures Kept(g, d, WriteEntry(g, d, c, value))
  {
    WriteEntryCovers(g, d, c, value);
    if Mirrored(g, d) {
      WriteEntryMirrors(g, d, c, value);
    }
    hide WriteEntry, SameData, Covers, Mirrored;
  }

  lemma ChainClusters(g: Geo, d: Disk, cs: seq<nat>)
    requires Covers(g, d) && Chain(FatOf(g, d), cs)
    ensures Clusters(g, cs) && |cs| > 0
  {
    forall i | 0 <= i < |cs| ensures 2 <= cs[i] < Entries(g) {
      assert Link(FatOf(g, d), cs, i);
    }
  }

  lemma NothingStored(g: Geo, d: Disk, cs: seq<nat>, data: seq<u8>)
    requires Clusters(g, cs) && GeoOk(g)
    ensures Stored(g, d, cs, data, 0) && OnDevice(g, d, cs, 0) && OnlyClusters(g, d, d, cs) && Off(g, 0, 0) == 0
  {}

  /** The chain of the table is followed although data sectors have changed. */
  lemma FollowChain(g: Geo, d: Disk, e: Disk, cs: seq<nat>, i: nat)
    requires Covers(g, d) && Covers(g, e) && OnlyClusters(g, d, e, cs) && Chain(FatOf(g, d), cs) && i < |cs|
    ensures cs[i] < LAST
    ensures if i + 1 < |cs| then FatNext(g, e, cs[i]) == cs[i + 1] else FatNext(g, e, cs[i]) >= LAST
  {
    hide FatOf, FatNext, Covers, OnlyClusters, Chain;
    FatUntouched(g, d, e, cs);
    LinkedCluster(g, e, cs, i);
  }

  lemma OffDevice(g: Geo, d: Disk, cs: seq<nat>, i: nat, s: nat, n: nat)
    requires Clusters(g, cs) && i < |cs| && s < g.spc && Off(g, i, s) < n && DataLba(g, cs[i], s) >= |d|
    ensures !OnDevice(g, d, cs, n)
  {
    hide Off, DataLba;
  }

  /** One sector of the data written in its place. */
  lemma OneSector(g: Geo, d: Disk, e: Disk, cs: seq<nat>, data: seq<u8>, i: nat, s: nat)
    requires Covers(g, d) && Covers(g, e) && OnlyClusters(g, d, e, cs) && Clusters(g, cs) && Distinct(cs)
    requires i < |cs| && s < g.spc && Off(g, i, s) < |data| && DataLba(g, cs[i], s) < |e|
    requires Stored(g, e, cs, data, Off(g, i, s)) && OnDevice(g, e, cs, Off(g, i, s))
    ensures
      var f := e[DataLba(g, cs[i], s) := Padded(data, Off(g, i, s))];
      var off := Off(g, i, s) + Min(|data| - Off(g, i, s), 512);
      && Covers(g, f) && OnlyClusters(g, d, f, cs) && Stored(g, f, cs, data, off) && OnDevice(g, f, cs, off)
  {
    StoredStep(g, e, cs, data, i, s);
    var f := e[DataLba(g, cs[i], s) := Padded(data, Off(g, i, s))];
    OnlyTrans(g, d, e, f, cs);
    var off := Off(g, i, s) + Min(|data| - Off(g, i, s), 512);
    StoredLess(g, f, cs, data, Off(g, i, s) + 512, off);
    OnDeviceStep(g, e, f, cs, i, s, off);
    hide Stored, OnlyClusters, OnDevice, Off, DataLba, Padded, DataStart;
  }

  lemma OnlyTrans(g: Geo, d: Disk, e: Disk, f: Disk, cs: seq<nat>)
    requires GeoOk(g) && OnlyClusters(g, d, e, cs) && OnlyClusters(g, e, f, cs)
    ensures OnlyClusters(g, d, f, cs)
  {
    hide InClusters;
  }

  lemma StoredLess(g: Geo, d: Disk, cs: seq<nat>, data: seq<u8>, n: nat, m: nat)
    requires Stored(g, d, cs, data, n) && m <= n
    ensures Stored(g, d, cs, data, m)
  {
    hide SectorStored, Off;
  }

  lemma OnDeviceStep(g: Geo, d: Disk, e: Disk, cs: seq<nat>, i: nat, s: nat, n: nat)
    requires Clusters(g, cs) && |d| == |e| && i < |cs| && s < g.spc && OnDevice(g, d, cs, Off(g, i, s))
    requires DataLba(g, cs[i], s) < |d| && n <= Off(g, i, s) + 512
    ensures OnDevice(g, e, cs, n)
  {
    hide DataLba, Off;
    forall i2, s2 | 0 <= i2 < |cs| && 0 <= s2 < g.spc && Off(g, i2, s2) < n ensures DataLba(g, cs[i2], s2) < |e| {
      Within(g, i, s, i2, s2);
      OffOrder(g, i2, s2, i, s);
    }
  }

  /** The loop stops with all the data written, or with the chain used up. */
  lemma DataDone(g: Geo, d: Disk, cs: seq<nat>, data: seq<u8>, i: nat, off: nat)
    requires Clusters(g, cs) && i <= |cs| && off == Min(Off(g, i, 0), |data|) && (i == |cs| || off == |data|)
    requires Stored(g, d, cs, data, off) && OnDevice(g, d, cs, off)
    ensures Stored(g, d, cs, data, |data|) && OnDevice(g, d, cs, |data|)
  {
    hide SectorStored, DataLba;
    forall i2, s2 | 0 <= i2 < |cs| && 0 <= s2 < g.spc && Off(g, i2, s2) < |data| ensures Off(g, i2, s2) < off {
      InsideChain(g, i2, s2, |cs|);
    }
    hide Off;
  }

  lemma InsideChain(g: Geo, i: nat, s: nat, n: nat)
    requires i < n && s < g.spc
    ensures Off(g, i, s) < Off(g, n, 0)
  {
    OffOrder(g, i, s, n, 0);
  }

  lemma KeptParts(g: Geo, d: Disk, e: Disk)
    requires Covers(g, d) && Kept(g, d, e)
    ensures Covers(g, e) && SameData(g, d, e) && (Mirrored(g, d) ==> Mirrored(g, e))
  {}

  /** What one round of the reading loop adds. */
  lemma ReadRound(g: Geo, d: Disk, cluster: u32, remaining: nat, done: seq<u8>, all: seq<u8>)
    requires Sectors(d) && g.spc > 0 && cluster < LAST && remaining > 0
    requires Cat(done, ReadFrom(g, d, cluster, remaining)) == all
    ensures
      var got := ReadSectors(d, ClusterLba(g, cluster), g.spc, remaining);
      && |got.bytes| <= remaining && (got.ok ==> |got.bytes| > 0)
      && (if got.ok then Cat(Cat(done, got.bytes), ReadFrom(g, d, FatNext(g, d, cluster), remaining - |got.bytes|)) == all
          else Cat(done, got.bytes) == all)
  {
    hide Cat;
    var got := ReadSectors(d, ClusterLba(g, cluster), g.spc, remaining);
    if got.ok {
      CatAssoc(done, got.bytes, ReadFrom(g, d, FatNext(g, d, cluster), remaining - |got.bytes|));
    }
  }

  /** What a cluster gives in all, once part is read and sector s is next. */
  function Rest(d: Disk, lba: u32, s: nat, n: nat, remaining: nat, part: seq<u8>): Got
    requires Sectors(d) && s <= n
  {
    var rest := ReadSectors(d, (lba + s) % 0x1_0000_0000, n - s, remaining);
    Got(Cat(part, rest.bytes), rest.ok)
  }

  lemma SectorsStart(d: Disk, lba: u32, n: nat, remaining: nat)
    requires Sectors(d)
    ensures Rest(d, lba, 0, n, remaining, []) == ReadSectors(d, lba, n, remaining)
  {
    Narrow(lba);
    hide ReadSectors;
  }

  lemma RestNone(d: Disk, lba: u32, s: nat, n: nat, remaining: nat, part: seq<u8>)
    requires Sectors(d) && s <= n && (s == n || remaining == 0)
    ensures Rest(d, lba, s, n, remaining, part) == Got(part, true)
  {
    CatNone(part);
    hide Cat;
  }

  lemma RestStep(d: Disk, lba: u32, s: nat, n: nat, remaining: nat, part: seq<u8>)
    requires Sectors(d) && s < n && remaining > 0
    ensures
      var at := (lba + s) % 0x1_0000_0000;
      var take := Min(remaining, 512);
      Rest(d, lba, s, n, remaining, part)
      == if at >= |d| then Got(part, false) else Rest(d, lba, s + 1, n, remaining - take, Cat(part, d[at][..take]))
  {
    hide Cat;
    NextWrap(lba + s);
    CatNone(part);
    var at := (lba + s) % 0x1_0000_0000;
    if at < |d| {
      var take := Min(remaining, 512);
      CatAssoc(part, d[at][..take], ReadSectors(d, (lba + s + 1) % 0x1_0000_0000, n - s - 1, remaining - take).bytes);
    }
  }

  lemma NextWrap(x: nat)
    ensures (x % 0x1_0000_0000 + 1) % 0x1_0000_0000 == (x + 1) % 0x1_0000_0000
  {}
}
