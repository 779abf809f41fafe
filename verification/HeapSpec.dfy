/** kernel/heap.c: a first-fit allocator over one linked list of block headers. */
module HeapSpec {
  import opened Words

  const HEAP_START := 0x500000
  const HEAP_SIZE := 0x800000
  const HEADER_SIZE := 32
  const HEAP_MAGIC := 0xDEADBEEF

  /** A block as the allocator sees it: where its header is, how large its payload is. */
  datatype Block = Block(addr: nat, size: nat, free: bool)

  function End(b: Block): nat {
    b.addr + HEADER_SIZE + b.size
  }

  /** The payload address handed to the caller. */
  function Payload(b: Block): nat {
    b.addr + HEADER_SIZE
  }

  function InitialBlocks(): seq<Block> {
    [Block(HEAP_START, HEAP_SIZE - HEADER_SIZE, true)]
  }

  /** (size + 7) & ~7 in 64 bits. */
  function RoundUp(size: u64): u64 {
    AndBound((size + 7) % 0x1_0000_0000_0000_0000, 0xFFFF_FFFF_FFFF_FFF8);
    And((size + 7) % 0x1_0000_0000_0000_0000, 0xFFFF_FFFF_FFFF_FFF8)
  }

  lemma RoundUpIs(size: u64)
    ensures RoundUp(size) == (size + 7) % 0x1_0000_0000_0000_0000 / 8 * 8
  {
    MaskSeven((size + 7) % 0x1_0000_0000_0000_0000);
    hide And;
  }

  /** Clearing the low three bits. */
  lemma MaskSeven(x: u64)
    ensures And(x, 0xFFFF_FFFF_FFFF_FFF8) == x / 8 * 8
  {
    hide And, Pow2;
    Pow2Values();
    AndSplit(x / 8, x % 8, 0x1FFF_FFFF_FFFF_FFFF, 0, 3);
    Pow2Split61();
    AndMask(x / 8, 61);
    AndZero(x % 8);
    EighthSmall(x);
  }

  lemma EighthSmall(x: u64)
    ensures x / 8 % 0x2000_0000_0000_0000 == x / 8
  {}

  lemma Pow2Split61()
    ensures Pow2(61) == 0x2000_0000_0000_0000
  {
    Pow2Wide();
    Pow2Values();
    Pow2Sum(61, 3, 64, Pow2(61), 8);
  }

  /** A request is rounded up to at least itself exactly when it is not one of the last seven
      64-bit sizes, which wrap around to zero. */
  lemma RoundUpCovers(size: u64)
    ensures RoundUp(size) >= size <==> size <= 0x1_0000_0000_0000_0000 - 8
    ensures RoundUp(size) % 8 == 0
  {
    RoundUpIs(size);
  }

  // ---------------------------------------------------------------- the block list

  /** Blocks cover [lo, hi) back to back in address order. */
  ghost predicate Tiles(bs: seq<Block>, lo: nat, hi: nat) {
    && |bs| > 0 && bs[0].addr == lo && End(bs[|bs| - 1]) == hi
    && forall i :: 0 < i < |bs| ==> bs[i].addr == End(bs[i - 1])
  }

  ghost predicate NoTwoFree(bs: seq<Block>) {
    forall i :: 0 < i < |bs| ==> !(bs[i - 1].free && bs[i].free)
  }

  ghost predicate Aligned(bs: seq<Block>) {
    forall i :: 0 <= i < |bs| ==> bs[i].size % 8 == 0 && bs[i].addr % 8 == 0
  }

  function UsedBytes(bs: seq<Block>): nat {
    if |bs| == 0 then 0 else (if bs[0].free then 0 else bs[0].size) + UsedBytes(bs[1..])
  }

  ghost predicate HeapOk(bs: seq<Block>) {
    Tiles(bs, HEAP_START, HEAP_START + HEAP_SIZE) && NoTwoFree(bs) && Aligned(bs)
  }

  predicate Fits(b: Block, n: nat) {
    b.free && b.size >= n
  }

  /** The first block that fits, or the length of the list. */
  function FirstFit(bs: seq<Block>, n: nat): (i: nat)
    ensures i <= |bs|
  {
    if |bs| == 0 then 0 else if Fits(bs[0], n) then 0 else 1 + FirstFit(bs[1..], n)
  }

  predicate Splits(b: Block, n: nat) {
    b.size >= n + HEADER_SIZE + 16
  }

  /** What the chosen block turns into. */
  function Carve(b: Block, n: nat): seq<Block>
    requires b.size >= n
  {
    if Splits(b, n)
    then [Block(b.addr, n, false), Block(b.addr + HEADER_SIZE + n, b.size - n - HEADER_SIZE, true)]
    else [b.(free := false)]
  }

  lemma {:induction false} FirstFitFits(bs: seq<Block>, n: nat)
    ensures
      var i := FirstFit(bs, n);
      && (i < |bs| ==> Fits(bs[i], n))
      && forall j :: 0 <= j < i ==> !Fits(bs[j], n)
  {
    if |bs| == 0 || Fits(bs[0], n) {
    } else {
      FirstFitFits(bs[1..], n);
      var i := FirstFit(bs, n);
      forall j | 0 <= j < i ensures !Fits(bs[j], n) {
        if j > 0 {
          assert bs[j] == bs[1..][j - 1];
        }
      }
    }
  }

  lemma {:induction false} FirstFitIs(bs: seq<Block>, n: nat, i: nat)
    requires i <= |bs| && (i < |bs| ==> Fits(bs[i], n))
    requires forall j :: 0 <= j < i ==> !Fits(bs[j], n)
    ensures FirstFit(bs, n) == i
  {
    if i > 0 {
      FirstFitIs(bs[1..], n, i - 1);
    }
  }

  /** kmalloc on the list; the list is unchanged when nothing fits. */
  function Malloc(bs: seq<Block>, n: nat): seq<Block> {
    var i := FirstFit(bs, n);
    FirstFitFits(bs, n);
    if i == |bs| then bs else bs[..i] + Carve(bs[i], n) + bs[i + 1..]
  }

  /** coalesce on the list. */
  function Merge(bs: seq<Block>): (r: seq<Block>)
    ensures |r| > 0 <==> |bs| > 0
    ensures |r| > 0 ==> r[0].addr == bs[0].addr && r[0].free == bs[0].free && r[0].size >= bs[0].size
    decreases |bs|
  {
    if |bs| <= 1 then bs
    else if bs[0].free && bs[1].free then
      Merge([Block(bs[0].addr, bs[0].size + HEADER_SIZE + bs[1].size, true)] + bs[2..])
    else [bs[0]] + Merge(bs[1..])
  }

  /** kfree of the live block at index i. */
  function Release(bs: seq<Block>, i: nat): seq<Block>
    requires i < |bs|
  {
    Merge(bs[i := bs[i].(free := true)])
  }

  // ---------------------------------------------------------------- tiling

  lemma {:induction false} UsedSplit(s: seq<Block>, t: seq<Block>)
    ensures UsedBytes(s + t) == UsedBytes(s) + UsedBytes(t)
  {
    if |s| == 0 {
      assert s + t == t;
    } else {
      assert (s + t)[1..] == s[1..] + t;
      UsedSplit(s[1..], t);
    }
  }

  /** Earlier blocks end before later ones begin: live payloads never overlap. */
  lemma {:induction false} Ordered(bs: seq<Block>, lo: nat, hi: nat, i: nat, j: nat)
    requires Tiles(bs, lo, hi) && i < j < |bs|
    ensures lo <= bs[i].addr && End(bs[i]) <= bs[j].addr && End(bs[j]) <= hi
    decreases j - i, i, |bs| - j
  {
    if i + 1 < j {
      Ordered(bs, lo, hi, i + 1, j);
      assert bs[i + 1].addr == End(bs[i]);
      Above(bs, lo, hi, i);
    } else {
      Above(bs, lo, hi, i);
      Below(bs, lo, hi, j);
    }
  }

  lemma {:induction false} Above(bs: seq<Block>, lo: nat, hi: nat, i: nat)
    requires Tiles(bs, lo, hi) && i < |bs|
    ensures lo <= bs[i].addr
  {
    if i > 0 {
      Above(bs, lo, hi, i - 1);
    }
  }

  lemma {:induction false} Below(bs: seq<Block>, lo: nat, hi: nat, i: nat)
    requires Tiles(bs, lo, hi) && i < |bs|
    ensures End(bs[i]) <= hi
    decreases |bs| - i
  {
    if i + 1 < |bs| {
      Below(bs, lo, hi, i + 1);
      assert bs[i + 1].addr == End(bs[i]);
    }
  }

  /** Replacing one block by blocks that cover the same ground keeps a tiling. */
  lemma TilesReplace(bs: seq<Block>, lo: nat, hi: nat, i: nat, mid: seq<Block>)
    requires Tiles(bs, lo, hi) && i < |bs| && Tiles(mid, bs[i].addr, End(bs[i]))
    ensures Tiles(bs[..i] + mid + bs[i + 1..], lo, hi)
  {
    var r := bs[..i] + mid + bs[i + 1..];
    var m := |mid|;
    forall k | 0 < k < |r| ensures r[k].addr == End(r[k - 1]) {
      if k < i {
        assert r[k] == bs[k] && r[k - 1] == bs[k - 1];
      } else if k == i {
        assert r[k] == mid[0] && r[k - 1] == bs[k - 1];
        assert bs[i].addr == End(bs[i - 1]);
      } else if k < i + m {
        assert r[k] == mid[k - i] && r[k - 1] == mid[k - i - 1];
      } else if k == i + m {
        assert r[k] == bs[i + 1] && r[k - 1] == mid[m - 1];
        assert bs[i + 1].addr == End(bs[i]);
      } else {
        assert r[k] == bs[k - m + 1] && r[k - 1] == bs[k - m];
      }
    }
    if i + 1 == |bs| {
      assert r[|r| - 1] == mid[m - 1];
    } else {
      assert r[|r| - 1] == bs[|bs| - 1];
    }
  }

  lemma MallocOk(bs: seq<Block>, n: nat)
    requires HeapOk(bs) && n % 8 == 0
    ensures HeapOk(Malloc(bs, n))
  {
    var i := FirstFit(bs, n);
    FirstFitFits(bs, n);
    if i < |bs| {
      var mid := Carve(bs[i], n);
      TilesReplace(bs, HEAP_START, HEAP_START + HEAP_SIZE, i, mid);
      var r := Malloc(bs, n);
      forall k | 0 < k < |r| ensures !(r[k - 1].free && r[k].free) {
        CarveNeighbours(bs, n, i, k);
      }
      MallocAligned(bs, n);
    }
    hide Tiles, Aligned, Carve, FirstFit;
  }

  lemma MallocAligned(bs: seq<Block>, n: nat)
    requires Aligned(bs) && n % 8 == 0 && FirstFit(bs, n) < |bs|
    ensures Aligned(Malloc(bs, n))
  {
    hide FirstFit, Carve, Aligned;
    var i := FirstFit(bs, n);
    FirstFitFits(bs, n);
    assert bs == bs[..i] + ([bs[i]] + bs[i + 1..]);
    AlignedParts(bs[..i], [bs[i]] + bs[i + 1..]);
    AlignedParts([bs[i]], bs[i + 1..]);
    CarveAligned(bs[i], n);
    AlignedParts(bs[..i], Carve(bs[i], n));
    AlignedParts(bs[..i] + Carve(bs[i], n), bs[i + 1..]);
  }

  lemma CarveAligned(b: Block, n: nat)
    requires Aligned([b]) && n % 8 == 0 && b.size >= n
    ensures Aligned(Carve(b, n))
  {
    assert [b][0] == b;
  }

  /** The carved block is live, and what follows its free remainder was not free. */
  lemma CarveNeighbours(bs: seq<Block>, n: nat, i: nat, k: nat)
    requires NoTwoFree(bs) && i == FirstFit(bs, n) && i < |bs| && Fits(bs[i], n)
    requires 0 < k < |Malloc(bs, n)|
    ensures !(Malloc(bs, n)[k - 1].free && Malloc(bs, n)[k].free)
  {
    var mid := Carve(bs[i], n);
    var r := Malloc(bs, n);
    var m := |mid|;
    if k < i {
      assert r[k] == bs[k] && r[k - 1] == bs[k - 1];
    } else if k < i + m {
      assert r[k] == mid[k - i];
      if k > i {
        assert r[k - 1] == mid[k - i - 1];
      }
    } else if k == i + m {
      assert r[k] == bs[i + 1] && r[k - 1] == mid[m - 1];
      assert !(bs[i].free && bs[i + 1].free);
    } else {
      assert r[k] == bs[k - m + 1] && r[k - 1] == bs[k - m];
    }
  }

  lemma MallocUses(bs: seq<Block>, n: nat)
    ensures
      var i := FirstFit(bs, n);
      UsedBytes(Malloc(bs, n)) ==
        UsedBytes(bs) + (if i < |bs| then Malloc(bs, n)[i].size else 0)
  {
    var i := FirstFit(bs, n);
    FirstFitFits(bs, n);
    if i < |bs| {
      var mid := Carve(bs[i], n);
      assert bs == bs[..i] + ([bs[i]] + bs[i + 1..]);
      UsedSplit(bs[..i], [bs[i]] + bs[i + 1..]);
      assert ([bs[i]] + bs[i + 1..])[1..] == bs[i + 1..];
      UsedSplit(bs[..i] + mid, bs[i + 1..]);
      UsedSplit(bs[..i], mid);
      CarveUses(bs[i], n);
    }
  }

  lemma CarveUses(b: Block, n: nat)
    requires b.size >= n
    ensures UsedBytes(Carve(b, n)) == Carve(b, n)[0].size
  {
    var c := Carve(b, n);
    if Splits(b, n) {
      assert c[1..] == [c[1]] && [c[1]][1..] == [];
      assert UsedBytes([c[1]]) == 0;
    } else {
      assert c[1..] == [];
    }
  }

  /** A granted payload holds the request exactly when rounding the request up did not wrap. */
  lemma GrantCoversIff(bs: seq<Block>, size: u64)
    requires HeapOk(bs) && FirstFit(bs, RoundUp(size)) < |bs|
    ensures
      var n := RoundUp(size);
      var i := FirstFit(bs, n);
      && i < |Malloc(bs, n)|
      && (Malloc(bs, n)[i].size >= size <==> size <= 0x1_0000_0000_0000_0000 - 8)
  {
    var n := RoundUp(size);
    var i := FirstFit(bs, n);
    RoundUpCovers(size);
    FirstFitFits(bs, n);
    assert Malloc(bs, n)[i] == Carve(bs[i], n)[0];
    Below(bs, HEAP_START, HEAP_START + HEAP_SIZE, i);
    hide RoundUp, FirstFit;
  }

  // ---------------------------------------------------------------- coalescing

  lemma {:induction false} MergeTiles(bs: seq<Block>, lo: nat, hi: nat)
    requires Tiles(bs, lo, hi)
    ensures Tiles(Merge(bs), lo, hi)
    decreases |bs|
  {
    if |bs| <= 1 {
    } else if bs[0].free && bs[1].free {
      var b := Block(bs[0].addr, bs[0].size + HEADER_SIZE + bs[1].size, true);
      var t := [b] + bs[2..];
      assert bs[1].addr == End(bs[0]);
      forall k | 0 < k < |t| ensures t[k].addr == End(t[k - 1]) {
        assert t[k] == bs[k + 1];
        if k > 1 {
          assert t[k - 1] == bs[k];
        }
      }
      if |bs| > 2 {
        assert t[|t| - 1] == bs[|bs| - 1];
      }
      MergeTiles(t, lo, hi);
    } else {
      var t := bs[1..];
      assert bs[1].addr == End(bs[0]);
      assert t[|t| - 1] == bs[|bs| - 1];
      forall k | 0 < k < |t| ensures t[k].addr == End(t[k - 1]) {
        assert t[k] == bs[k + 1] && t[k - 1] == bs[k];
      }
      MergeTiles(t, bs[1].addr, hi);
      var m := Merge(t);
      var r := [bs[0]] + m;
      forall k | 0 < k < |r| ensures r[k].addr == End(r[k - 1]) {
        assert r[k] == m[k - 1];
        if k > 1 {
          assert r[k - 1] == m[k - 2];
        }
      }
    }
  }

  lemma {:induction false} MergeNoTwoFree(bs: seq<Block>)
    ensures NoTwoFree(Merge(bs))
    decreases |bs|
  {
    if |bs| <= 1 {
    } else if bs[0].free && bs[1].free {
      MergeNoTwoFree([Block(bs[0].addr, bs[0].size + HEADER_SIZE + bs[1].size, true)] + bs[2..]);
    } else {
      var m := Merge(bs[1..]);
      MergeNoTwoFree(bs[1..]);
      var r := [bs[0]] + m;
      forall k | 0 < k < |r| ensures !(r[k - 1].free && r[k].free) {
        assert r[k] == m[k - 1];
        if k > 1 {
          assert r[k - 1] == m[k - 2];
        }
      }
    }
  }

  lemma {:induction false} MergeAligned(bs: seq<Block>)
    requires Aligned(bs)
    ensures Aligned(Merge(bs))
    decreases |bs|
  {
    if |bs| <= 1 {
    } else if bs[0].free && bs[1].free {
      var m := Block(bs[0].addr, bs[0].size + HEADER_SIZE + bs[1].size, true);
      AlignedParts([bs[0], bs[1]], bs[2..]);
      assert bs == [bs[0], bs[1]] + bs[2..];
      AlignedParts([m], bs[2..]);
      hide Aligned;
      MergeAligned([m] + bs[2..]);
    } else {
      AlignedParts([bs[0]], bs[1..]);
      assert bs == [bs[0]] + bs[1..];
      AlignedParts([bs[0]], Merge(bs[1..]));
      hide Aligned;
      MergeAligned(bs[1..]);
    }
  }

  lemma AlignedParts(s: seq<Block>, t: seq<Block>)
    ensures Aligned(s + t) <==> Aligned(s) && Aligned(t)
  {
    if Aligned(s + t) {
      assert forall i :: 0 <= i < |s| ==> s[i] == (s + t)[i];
      assert forall i :: 0 <= i < |t| ==> t[i] == (s + t)[|s| + i];
    }
  }

  lemma {:induction false} MergeUses(bs: seq<Block>)
    ensures UsedBytes(Merge(bs)) == UsedBytes(bs)
    decreases |bs|
  {
    if |bs| <= 1 {
    } else if bs[0].free && bs[1].free {
      var t := [Block(bs[0].addr, bs[0].size + HEADER_SIZE + bs[1].size, true)] + bs[2..];
      assert t[1..] == bs[2..] && bs[1..][1..] == bs[2..];
      MergeUses(t);
    } else {
      var m := Merge(bs[1..]);
      assert ([bs[0]] + m)[1..] == m;
      MergeUses(bs[1..]);
    }
  }

  /** Coalescing touches free blocks only: the live ones are the same before and after. */
  lemma {:induction false} MergeKeepsLive(bs: seq<Block>, b: Block)
    requires !b.free
    ensures b in Merge(bs) <==> b in bs
    decreases |bs|
  {
    if |bs| <= 1 {
    } else if bs[0].free && bs[1].free {
      var m := Block(bs[0].addr, bs[0].size + HEADER_SIZE + bs[1].size, true);
      MergeKeepsLive([m] + bs[2..], b);
      assert bs == [bs[0], bs[1]] + bs[2..];
    } else {
      MergeKeepsLive(bs[1..], b);
      assert bs == [bs[0]] + bs[1..];
    }
  }

  lemma ReleaseOk(bs: seq<Block>, i: nat)
    requires HeapOk(bs) && i < |bs|
    ensures HeapOk(Release(bs, i))
  {
    var c := bs[i := bs[i].(free := true)];
    assert Tiles(c, HEAP_START, HEAP_START + HEAP_SIZE);
    MergeTiles(c, HEAP_START, HEAP_START + HEAP_SIZE);
    MergeNoTwoFree(c);
    MergeAligned(c);
  }

  lemma ReleaseUses(bs: seq<Block>, i: nat)
    requires i < |bs| && !bs[i].free
    ensures UsedBytes(Release(bs, i)) + bs[i].size == UsedBytes(bs)
  {
    hide Merge;
    var c := bs[i := bs[i].(free := true)];
    MergeUses(c);
    assert bs == bs[..i] + ([bs[i]] + bs[i + 1..]);
    assert c == bs[..i] + ([c[i]] + bs[i + 1..]);
    UsedSplit(bs[..i], [bs[i]] + bs[i + 1..]);
    UsedSplit(bs[..i], [c[i]] + bs[i + 1..]);
    assert ([bs[i]] + bs[i + 1..])[1..] == bs[i + 1..];
    assert ([c[i]] + bs[i + 1..])[1..] == bs[i + 1..];
  }

  /** When nothing is live the heap is the single initial block again. */
  lemma AllFreeIsInitial(bs: seq<Block>)
    requires HeapOk(bs) && forall i :: 0 <= i < |bs| ==> bs[i].free
    ensures bs == InitialBlocks()
  {
    if |bs| > 1 {
      assert bs[0].free && bs[1].free;
    }
  }

  // ---------------------------------------------------------------- whole runs

  /** What a client does: ask for a size, or free a payload it holds. */
  datatype Request = Alloc(size: u64) | Free(ptr: nat)

  /** The blocks, the usage counter, and the client's outstanding payloads with their sizes. */
  datatype State = State(blocks: seq<Block>, used: int, held: map<nat, nat>)

  function Find(bs: seq<Block>, ptr: nat): (i: nat)
    ensures i <= |bs|
    ensures i < |bs| ==> Payload(bs[i]) == ptr && !bs[i].free
    ensures i == |bs| ==> forall j :: 0 <= j < |bs| ==> !(Payload(bs[j]) == ptr && !bs[j].free)
  {
    if |bs| == 0 then 0
    else if Payload(bs[0]) == ptr && !bs[0].free then 0
    else
      var k := Find(bs[1..], ptr);
      assert forall j :: 0 < j < |bs| ==> bs[j] == bs[1..][j - 1];
      1 + k
  }

  function Step(s: State, r: Request): State {
    match r
    case Alloc(size) =>
      var n := RoundUp(size);
      var i := FirstFit(s.blocks, n);
      if size == 0 || i == |s.blocks| then s
      else
        var bs := Malloc(s.blocks, n);
        assert i < |bs|;
        State(bs, s.used + bs[i].size, s.held[Payload(bs[i]) := bs[i].size])
    case Free(ptr) =>
      var i := Find(s.blocks, ptr);
      if i == |s.blocks| then s
      else State(Release(s.blocks, i), s.used - s.blocks[i].size, s.held - {ptr})
  }

  function Run(rs: seq<Request>): State {
    if |rs| == 0 then State(InitialBlocks(), 0, map[])
    else Step(Run(rs[..|rs| - 1]), rs[|rs| - 1])
  }

  /** The client's view and the list agree: exactly the held payloads are live blocks. */
  ghost predicate Agrees(bs: seq<Block>, held: map<nat, nat>) {
    LiveAreHeld(bs, held) && HeldAreLive(bs, held)
  }

  ghost predicate LiveAreHeld(bs: seq<Block>, held: map<nat, nat>) {
    forall b :: b in bs && !b.free ==> IsHeld(held, b)
  }

  predicate IsHeld(held: map<nat, nat>, b: Block) {
    Payload(b) in held && held[Payload(b)] == b.size
  }

  ghost predicate HeldAreLive(bs: seq<Block>, held: map<nat, nat>) {
    forall p :: p in held ==> p >= HEADER_SIZE && HeldBlock(held, p) in bs
  }

  function HeldBlock(held: map<nat, nat>, p: nat): Block
    requires p in held && p >= HEADER_SIZE
  {
    Block(p - HEADER_SIZE, held[p], false)
  }

  ghost predicate StateOk(s: State) {
    HeapOk(s.blocks) && s.used == UsedBytes(s.blocks) && Agrees(s.blocks, s.held)
  }

  /** Blocks of a tiling with the same address are the same block. */
  lemma SameAddr(bs: seq<Block>, b: Block, c: Block)
    requires HeapOk(bs) && b in bs && c in bs && b.addr == c.addr
    ensures b == c
  {
    var i :| 0 <= i < |bs| && bs[i] == b;
    var j :| 0 <= j < |bs| && bs[j] == c;
    if i < j {
      Ordered(bs, HEAP_START, HEAP_START + HEAP_SIZE, i, j);
    } else if j < i {
      Ordered(bs, HEAP_START, HEAP_START + HEAP_SIZE, j, i);
    }
  }

  lemma SameAsAt(bs: seq<Block>, b: Block, i: nat)
    requires HeapOk(bs) && i < |bs|
    ensures b in bs && b.addr == bs[i].addr ==> b == bs[i]
  {
    if b in bs && b.addr == bs[i].addr {
      SameAddr(bs, b, bs[i]);
    }
  }

  lemma MallocLive(bs: seq<Block>, n: nat, b: Block)
    requires FirstFit(bs, n) < |bs| && !b.free
    ensures
      var i := FirstFit(bs, n);
      && i < |Malloc(bs, n)| && !Malloc(bs, n)[i].free && Malloc(bs, n)[i].addr == bs[i].addr
      && Malloc(bs, n)[i].size >= n
      && (b in Malloc(bs, n) <==> b in bs || b == Malloc(bs, n)[i])
  {
    hide FirstFit, Carve;
    var i := FirstFit(bs, n);
    FirstFitFits(bs, n);
    var mid := Carve(bs[i], n);
    CarveLive(bs[i], n, b);
    assert Malloc(bs, n)[i] == mid[0];
    InParts(bs[..i], [bs[i]], bs[i + 1..], b);
    InParts(bs[..i], mid, bs[i + 1..], b);
    assert bs == bs[..i] + [bs[i]] + bs[i + 1..];
  }

  lemma InParts(s: seq<Block>, t: seq<Block>, u: seq<Block>, b: Block)
    ensures b in s + t + u <==> b in s || b in t || b in u
  {}

  lemma CarveLive(a: Block, n: nat, b: Block)
    requires Fits(a, n) && !b.free
    ensures
      var c := Carve(a, n);
      |c| > 0 && !c[0].free && c[0].addr == a.addr && c[0].size >= n && (b in c <==> b == c[0])
  {}

  lemma AllocAgrees(bs: seq<Block>, held: map<nat, nat>, n: nat)
    requires HeapOk(bs) && Agrees(bs, held) && FirstFit(bs, n) < |bs|
    ensures
      var i := FirstFit(bs, n);
      var r := Malloc(bs, n);
      i < |r| && Payload(r[i]) !in held && Agrees(r, held[Payload(r[i]) := r[i].size])
  {
    hide HeapOk, Malloc, FirstFit, LiveAreHeld, HeldAreLive;
    var i := FirstFit(bs, n);
    FirstFitFits(bs, n);
    var r := Malloc(bs, n);
    MallocLive(bs, n, bs[i].(free := false));
    NotYetHeld(bs, held, bs[i]);
    AllocLive(bs, held, n);
    AllocHeld(bs, held, n);
  }

  lemma NotYetHeld(bs: seq<Block>, held: map<nat, nat>, b: Block)
    requires HeapOk(bs) && HeldAreLive(bs, held) && b in bs && b.free
    ensures Payload(b) !in held
  {
    hide HeapOk;
    if Payload(b) in held {
      SameAddr(bs, b, HeldBlock(held, Payload(b)));
    }
  }

  lemma AllocLive(bs: seq<Block>, held: map<nat, nat>, n: nat)
    requires HeapOk(bs) && LiveAreHeld(bs, held) && FirstFit(bs, n) < |bs|
    requires Payload(bs[FirstFit(bs, n)]) !in held
    ensures
      var i := FirstFit(bs, n);
      var r := Malloc(bs, n);
      i < |r| && LiveAreHeld(r, held[Payload(r[i]) := r[i].size])
  {
    hide HeapOk, Malloc, FirstFit;
    var i := FirstFit(bs, n);
    var r := Malloc(bs, n);
    MallocLive(bs, n, bs[i].(free := false));
    forall b | b in r && !b.free ensures IsHeld(held[Payload(r[i]) := r[i].size], b) {
      MallocLive(bs, n, b);
      assert b in bs ==> IsHeld(held, b);
    }
  }

  lemma AllocHeld(bs: seq<Block>, held: map<nat, nat>, n: nat)
    requires HeapOk(bs) && HeldAreLive(bs, held) && FirstFit(bs, n) < |bs|
    requires Payload(bs[FirstFit(bs, n)]) !in held
    ensures
      var i := FirstFit(bs, n);
      var r := Malloc(bs, n);
      i < |r| && HeldAreLive(r, held[Payload(r[i]) := r[i].size])
  {
    hide HeapOk, Malloc, FirstFit;
    var i := FirstFit(bs, n);
    var r := Malloc(bs, n);
    MallocLive(bs, n, bs[i].(free := false));
    var h := held[Payload(r[i]) := r[i].size];
    forall q | q in h ensures q >= HEADER_SIZE && HeldBlock(h, q) in r {
      if q != Payload(r[i]) {
        MallocLive(bs, n, HeldBlock(held, q));
      }
    }
  }

  lemma ReleaseLive(bs: seq<Block>, i: nat, b: Block)
    requires HeapOk(bs) && i < |bs| && !bs[i].free && !b.free
    ensures b in Release(bs, i) <==> b in bs && b != bs[i]
  {
    var c := bs[i := bs[i].(free := true)];
    MergeKeepsLive(c, b);
    if b in bs && b != bs[i] {
      var j :| 0 <= j < |bs| && bs[j] == b;
      assert c[j] == b;
    }
    if b in c {
      var j :| 0 <= j < |c| && c[j] == b;
      assert j != i && bs[j] == b;
      if b == bs[i] {
        if i < j {
          Ordered(bs, HEAP_START, HEAP_START + HEAP_SIZE, i, j);
        } else {
          Ordered(bs, HEAP_START, HEAP_START + HEAP_SIZE, j, i);
        }
      }
    }
  }

  lemma FreeAgrees(bs: seq<Block>, held: map<nat, nat>, ptr: nat)
    requires HeapOk(bs) && Agrees(bs, held) && Find(bs, ptr) < |bs|
    ensures Agrees(Release(bs, Find(bs, ptr)), held - {ptr})
  {
    hide HeapOk, Release, LiveAreHeld, HeldAreLive;
    FreeLive(bs, held, ptr);
    FreeHeld(bs, held, ptr);
  }

  lemma FreeLive(bs: seq<Block>, held: map<nat, nat>, ptr: nat)
    requires HeapOk(bs) && LiveAreHeld(bs, held) && Find(bs, ptr) < |bs|
    ensures LiveAreHeld(Release(bs, Find(bs, ptr)), held - {ptr})
  {
    hide HeapOk, Release;
    var i := Find(bs, ptr);
    forall b | b in Release(bs, i) && !b.free ensures IsHeld(held - {ptr}, b) {
      ReleaseLive(bs, i, b);
      SameAsAt(bs, b, i);
    }
  }

  lemma FreeHeld(bs: seq<Block>, held: map<nat, nat>, ptr: nat)
    requires HeapOk(bs) && HeldAreLive(bs, held) && Find(bs, ptr) < |bs|
    ensures HeldAreLive(Release(bs, Find(bs, ptr)), held - {ptr})
  {
    hide HeapOk, Release;
    var i := Find(bs, ptr);
    forall q | q in held - {ptr} ensures q >= HEADER_SIZE && HeldBlock(held - {ptr}, q) in Release(bs, i) {
      ReleaseLive(bs, i, HeldBlock(held, q));
    }
  }

  lemma StepOk(s: State, r: Request)
    requires StateOk(s)
    ensures StateOk(Step(s, r))
  {
    hide HeapOk, Agrees, LiveAreHeld, HeldAreLive, Malloc, Release, UsedBytes, Find, FirstFit, RoundUp;
    match r {
      case Alloc(size) =>
        var n := RoundUp(size);
        if size != 0 && FirstFit(s.blocks, n) < |s.blocks| {
          RoundUpCovers(size);
          MallocOk(s.blocks, n);
          MallocUses(s.blocks, n);
          AllocAgrees(s.blocks, s.held, n);
        }
      case Free(ptr) =>
        var i := Find(s.blocks, ptr);
        if i < |s.blocks| {
          ReleaseOk(s.blocks, i);
          ReleaseUses(s.blocks, i);
          FreeAgrees(s.blocks, s.held, ptr);
        }
    }
  }

  /** After any sequence of requests: the blocks tile the heap, no two neighbours are free,
      the counter is the sum of the live sizes, and the live blocks are the client's. */
  lemma {:induction false} RunOk(rs: seq<Request>)
    ensures StateOk(Run(rs))
  {
    if |rs| == 0 {
      assert InitialBlocks()[1..] == [];
    } else {
      RunOk(rs[..|rs| - 1]);
      StepOk(Run(rs[..|rs| - 1]), rs[|rs| - 1]);
    }
  }

  /** Two payloads held at the same time never share a byte and lie inside the heap. */
  lemma HeldDisjoint(rs: seq<Request>, p: nat, q: nat)
    requires p in Run(rs).held && q in Run(rs).held && p != q
    ensures
      var h := Run(rs).held;
      && (p + h[p] <= q || q + h[q] <= p)
      && HEAP_START + HEADER_SIZE <= p && p + h[p] <= HEAP_START + HEAP_SIZE
  {
    hide Run, HeapOk;
    RunOk(rs);
    var s := Run(rs);
    Apart(s.blocks, HeldBlock(s.held, p), HeldBlock(s.held, q));
  }

  lemma Apart(bs: seq<Block>, b: Block, c: Block)
    requires HeapOk(bs) && b in bs && c in bs && b.addr != c.addr
    ensures End(b) <= c.addr || End(c) <= b.addr
    ensures HEAP_START <= b.addr && End(b) <= HEAP_START + HEAP_SIZE
  {
    var i :| 0 <= i < |bs| && bs[i] == b;
    var j :| 0 <= j < |bs| && bs[j] == c;
    if i < j {
      Ordered(bs, HEAP_START, HEAP_START + HEAP_SIZE, i, j);
    } else {
      Ordered(bs, HEAP_START, HEAP_START + HEAP_SIZE, j, i);
    }
    Above(bs, HEAP_START, HEAP_START + HEAP_SIZE, i);
    hide Tiles, Aligned, NoTwoFree;
  }

  /** Freeing everything, in whatever order, restores the heap of heap_init. */
  lemma EmptyIsInitial(rs: seq<Request>)
    requires Run(rs).held == map[]
    ensures Run(rs) == State(InitialBlocks(), 0, map[])
  {
    RunOk(rs);
    var s := Run(rs);
    forall i | 0 <= i < |s.blocks| ensures s.blocks[i].free {
      assert s.blocks[i] in s.blocks;
    }
    AllFreeIsInitial(s.blocks);
    assert InitialBlocks()[1..] == [];
  }
}
