/** The headers of kernel/heap.c in memory, and the operations on them in place. */
module HeapImpl {
  import opened Words
  import opened HeapSpec

  /** A block header in memory; `next` is an address, 0 for none. */
  datatype Header = Header(size: nat, free: bool, next: nat, magic: u32)

  function NextAddr(bs: seq<Block>, i: nat): nat {
    if i + 1 < |bs| then bs[i + 1].addr else 0
  }

  function HeaderOf(bs: seq<Block>, i: nat): Header
    requires i < |bs|
  {
    Header(bs[i].size, bs[i].free, NextAddr(bs, i), HEAP_MAGIC)
  }

  /** The headers in memory form the list bs.  Memory elsewhere is arbitrary. */
  ghost predicate Linked(mem: map<nat, Header>, bs: seq<Block>) {
    forall i :: 0 <= i < |bs| ==> bs[i].addr in mem && mem[bs[i].addr] == HeaderOf(bs, i)
  }

  /** Memory at addr reads as the header of a block in use. */
  predicate ReadsLive(mem: map<nat, Header>, addr: int) {
    addr in mem && mem[addr].magic == HEAP_MAGIC && !mem[addr].free
  }

  lemma DistinctAddr(bs: seq<Block>, lo: nat, hi: nat, i: nat, j: nat)
    requires Tiles(bs, lo, hi) && i < |bs| && j < |bs| && i != j
    ensures bs[i].addr != bs[j].addr
    ensures bs[j].addr <= bs[i].addr || End(bs[i]) <= bs[j].addr
  {
    if i < j {
      Ordered(bs, lo, hi, i, j);
    } else {
      Ordered(bs, lo, hi, j, i);
    }
  }

  /** The two header writes of a split of the block at a with header b. */
  function SplitMem(mem: map<nat, Header>, a: nat, b: Header, n: nat): map<nat, Header>
    requires b.size >= n + HEADER_SIZE
  {
    var rest := a + HEADER_SIZE + n;
    mem[rest := Header(b.size - n - HEADER_SIZE, true, b.next, HEAP_MAGIC)][a := Header(n, false, rest, b.magic)]
  }

  /** Writing the two headers of a split turns the list into the carved list. */
  lemma LinkedSplit(mem: map<nat, Header>, bs: seq<Block>, lo: nat, hi: nat, i: nat, n: nat)
    requires Linked(mem, bs) && Tiles(bs, lo, hi) && i < |bs| && Splits(bs[i], n)
    ensures Linked(SplitMem(mem, bs[i].addr, HeaderOf(bs, i), n), bs[..i] + Carve(bs[i], n) + bs[i + 1..])
  {
    hide Tiles, SplitMem;
    var mem2 := SplitMem(mem, bs[i].addr, HeaderOf(bs, i), n);
    var r := bs[..i] + Carve(bs[i], n) + bs[i + 1..];
    forall k | 0 <= k < |r| ensures r[k].addr in mem2 && mem2[r[k].addr] == HeaderOf(r, k) {
      if k < i {
        DistinctAddr(bs, lo, hi, i, k);
        SplitElsewhere(mem, bs, i, n, k);
        assert r[k] == bs[k] && NextAddr(r, k) == NextAddr(bs, k);
      } else if k > i + 1 {
        DistinctAddr(bs, lo, hi, i, k - 1);
        SplitElsewhere(mem, bs, i, n, k - 1);
        assert r[k] == bs[k - 1] && NextAddr(r, k) == NextAddr(bs, k - 1);
      } else {
        SplitHeaders(mem, bs[i].addr, HeaderOf(bs, i), n);
        assert NextAddr(r, i) == bs[i].addr + HEADER_SIZE + n && NextAddr(r, i + 1) == NextAddr(bs, i);
      }
    }
  }

  lemma SplitHeaders(mem: map<nat, Header>, a: nat, b: Header, n: nat)
    requires b.size >= n + HEADER_SIZE && b.magic == HEAP_MAGIC
    ensures
      var m := SplitMem(mem, a, b, n);
      var rest := a + HEADER_SIZE + n;
      && a in m && m[a] == Header(n, false, rest, HEAP_MAGIC)
      && rest in m && m[rest] == Header(b.size - n - HEADER_SIZE, true, b.next, HEAP_MAGIC)
  {}

  lemma SplitElsewhere(mem: map<nat, Header>, bs: seq<Block>, i: nat, n: nat, k: nat)
    requires Linked(mem, bs) && i < |bs| && k < |bs| && Splits(bs[i], n) && bs[k].addr != bs[i].addr
    requires bs[k].addr <= bs[i].addr || End(bs[i]) <= bs[k].addr
    ensures
      var m := SplitMem(mem, bs[i].addr, HeaderOf(bs, i), n);
      bs[k].addr in m && m[bs[k].addr] == HeaderOf(bs, k)
  {}

  /** Marking one header changes that block only. */
  lemma LinkedMark(mem: map<nat, Header>, bs: seq<Block>, lo: nat, hi: nat, i: nat, free: bool)
    requires Linked(mem, bs) && Tiles(bs, lo, hi) && i < |bs|
    ensures Linked(mem[bs[i].addr := HeaderOf(bs, i).(free := free)], bs[i := bs[i].(free := free)])
  {
    var c := bs[i := bs[i].(free := free)];
    var mem1 := mem[bs[i].addr := HeaderOf(bs, i).(free := free)];
    forall k | 0 <= k < |c| ensures c[k].addr in mem1 && mem1[c[k].addr] == HeaderOf(c, k) {
      assert NextAddr(c, k) == NextAddr(bs, k);
      if k != i {
        DistinctAddr(bs, lo, hi, i, k);
      }
    }
  }

  /** Two neighbours joined into the first. */
  function Join(bs: seq<Block>, i: nat): seq<Block>
    requires i + 1 < |bs|
  {
    bs[..i] + [Block(bs[i].addr, bs[i].size + HEADER_SIZE + bs[i + 1].size, true)] + bs[i + 2..]
  }

  lemma LinkedJoin(mem: map<nat, Header>, bs: seq<Block>, lo: nat, hi: nat, i: nat)
    requires Linked(mem, bs) && Tiles(bs, lo, hi) && i + 1 < |bs|
    ensures Tiles(Join(bs, i), lo, hi)
    ensures Linked(mem[bs[i].addr := Header(bs[i].size + HEADER_SIZE + bs[i + 1].size, true,
                                            NextAddr(bs, i + 1), HEAP_MAGIC)], Join(bs, i))
  {
    var mem1 := mem[bs[i].addr := Header(bs[i].size + HEADER_SIZE + bs[i + 1].size, true,
                                         NextAddr(bs, i + 1), HEAP_MAGIC)];
    var r := Join(bs, i);
    forall k | 0 <= k < |r| ensures r[k].addr in mem1 && mem1[r[k].addr] == HeaderOf(r, k) {
      if k < i {
        assert r[k] == bs[k];
        DistinctAddr(bs, lo, hi, i, k);
        assert NextAddr(r, k) == NextAddr(bs, k);
      } else if k > i {
        assert r[k] == bs[k + 1];
        DistinctAddr(bs, lo, hi, i, k + 1);
        assert NextAddr(r, k) == NextAddr(bs, k + 1);
      } else {
        assert NextAddr(r, i) == NextAddr(bs, i + 1);
      }
    }
    JoinTiles(bs, lo, hi, i);
  }

  lemma JoinTiles(bs: seq<Block>, lo: nat, hi: nat, i: nat)
    requires Tiles(bs, lo, hi) && i + 1 < |bs|
    ensures Tiles(Join(bs, i), lo, hi)
  {
    var r := Join(bs, i);
    assert bs[i + 1].addr == End(bs[i]);
    forall k | 0 < k < |r| ensures r[k].addr == End(r[k - 1]) {
      if k <= i {
        assert r[k].addr == bs[k].addr && r[k - 1] == bs[k - 1];
      } else {
        assert r[k] == bs[k + 1];
        assert End(r[k - 1]) == End(bs[k]);
      }
    }
    assert r[|r| - 1] == if i + 2 == |bs| then r[i] else bs[|bs| - 1];
  }

  /** Where the coalescing loop stands: everything before block i is final. */
  function MergeFrom(bs: seq<Block>, i: nat): seq<Block>
    requires i <= |bs|
  {
    bs[..i] + Merge(bs[i..])
  }

  lemma MergeFromJoin(bs: seq<Block>, i: nat)
    requires i + 1 < |bs| && bs[i].free && bs[i + 1].free
    ensures MergeFrom(Join(bs, i), i) == MergeFrom(bs, i)
  {
    var r := Join(bs, i);
    var t := bs[i..];
    assert t[0] == bs[i] && t[1] == bs[i + 1] && t[2..] == bs[i + 2..];
    assert r[..i] == bs[..i];
    assert r[i..] == [Block(t[0].addr, t[0].size + HEADER_SIZE + t[1].size, true)] + t[2..];
  }

  lemma MergeFromNext(bs: seq<Block>, i: nat)
    requires i + 1 < |bs| && !(bs[i].free && bs[i + 1].free)
    ensures MergeFrom(bs, i + 1) == MergeFrom(bs, i)
  {
    var t := bs[i..];
    assert t[0] == bs[i] && t[1] == bs[i + 1] && t[1..] == bs[i + 1..];
    assert bs[..i + 1] == bs[..i] + [bs[i]];
    assert bs[..i] + [bs[i]] + Merge(bs[i + 1..]) == bs[..i] + ([bs[i]] + Merge(bs[i + 1..]));
  }

  /** No payload in use, yet the bytes before it read as the header of a block in use. */
  predicate Stray(mem: map<nat, Header>, bs: seq<Block>, ptr: nat) {
    Find(bs, ptr) == |bs| && ReadsLive(mem, ptr - HEADER_SIZE)
  }

  /** What kfree of ptr subtracts from the counter without a block of the list being freed. */
  function Miscounted(mem: map<nat, Header>, bs: seq<Block>, ptr: nat): nat {
    if Stray(mem, bs, ptr) && mem[ptr - HEADER_SIZE].size <= UsedBytes(bs) then mem[ptr - HEADER_SIZE].size else 0
  }

  class Heap {
    var mem: map<nat, Header>
    var head: nat
    var used: int
    /** The list the headers form. */
    ghost var blocks: seq<Block>

    ghost predicate Valid()
      reads this
    {
      HeapOk(blocks) && Linked(mem, blocks) && head == HEAP_START && used == UsedBytes(blocks)
    }

    /** heap_init. */
    constructor (memory: map<nat, Header>)
      ensures Valid() && blocks == InitialBlocks()
    {
      head := HEAP_START;
      mem := memory[HEAP_START := Header(HEAP_SIZE - HEADER_SIZE, true, 0, HEAP_MAGIC)];
      used := 0;
      blocks := InitialBlocks();
      new;
      assert InitialBlocks()[1..] == [];
    }

    method Coalesce()
      requires Tiles(blocks, HEAP_START, HEAP_START + HEAP_SIZE) && Linked(mem, blocks) && head == HEAP_START
      modifies this`mem, this`blocks
      ensures blocks == Merge(old(blocks)) && Linked(mem, blocks)
      ensures Tiles(blocks, HEAP_START, HEAP_START + HEAP_SIZE)
    {
      FirstBlock(blocks);
      hide Tiles, Linked, Merge, MergeFrom, Join;
      var cur := head;
      ghost var i := 0;
      HeaderAt(mem, blocks, 0);
      while cur != 0 && mem[cur].next != 0
        invariant i < |blocks| && cur == blocks[i].addr && cur != 0 && cur in mem && mem[cur] == HeaderOf(blocks, i)
        invariant Tiles(blocks, HEAP_START, HEAP_START + HEAP_SIZE) && Linked(mem, blocks)
        invariant MergeFrom(blocks, i) == Merge(old(blocks))
        decreases |blocks| - i
      {
        var next := mem[cur].next;
        HeaderAt(mem, blocks, i + 1);
        NextNotNull(blocks, i + 1);
        if mem[cur].free && mem[next].free {
          Joined(mem, blocks, i);
          mem := mem[cur := mem[cur].(size := mem[cur].size + HEADER_SIZE + mem[next].size, next := mem[next].next)];
          blocks := Join(blocks, i);
        } else {
          MergeFromNext(blocks, i);
          cur := next;
          i := i + 1;
        }
      }
      NullIsLast(blocks, i);
    }

    /** kmalloc: the payload of the first block that fits, cut in two if it is large enough,
        or 0 and no change. */
    method Kmalloc(size: u64) returns (ptr: nat)
      requires Valid()
      modifies this
      ensures Valid()
      ensures
        var n := RoundUp(size);
        var i := FirstFit(old(blocks), n);
        if size == 0 || i == |old(blocks)| then ptr == 0 && blocks == old(blocks) && mem == old(mem)
        else
          && blocks == Malloc(old(blocks), n) && i < |blocks| && ptr == Payload(blocks[i])
          && n <= blocks[i].size < n + 48 && used == old(used) + blocks[i].size
    {
      if size == 0 { return 0; }
      var n := RoundUp(size);
      RoundUpCovers(size);
      FirstBlock(blocks);
      hide HeapOk, Linked, Malloc, FirstFit, RoundUp, UsedBytes;
      var cur := head;
      ghost var i := 0;
      HeaderAt(mem, blocks, 0);
      while cur != 0 && !(mem[cur].free && mem[cur].size >= n)
        modifies {}
        invariant 0 <= i <= |blocks|
        invariant if i < |blocks| then cur == blocks[i].addr && cur in mem && mem[cur] == HeaderOf(blocks, i) else cur == 0
        invariant forall j :: 0 <= j < i ==> !Fits(blocks[j], n)
        decreases |blocks| - i
      {
        cur := mem[cur].next;
        i := i + 1;
        if i < |blocks| {
          HeaderAt(mem, blocks, i);
        }
      }
      if cur == 0 {
        AllSeen(blocks, i);
        FirstFitIs(blocks, n, i);
        return 0;
      }
      FirstFitIs(blocks, n, i);
      TakeBlock(cur, n, i);
      return cur + HEADER_SIZE;
    }

    /** The block found is cut or taken whole, and counted. */
    method TakeBlock(cur: nat, n: nat, ghost i: nat)
      requires Valid() && n % 8 == 0 && i < |blocks| && i == FirstFit(blocks, n)
      requires cur == blocks[i].addr && Fits(blocks[i], n)
      modifies this
      ensures Valid() && blocks == Malloc(old(blocks), n) && i < |blocks| && blocks[i].addr == cur
      ensures n <= blocks[i].size < n + 48 && used == old(used) + blocks[i].size
    {
      hide HeapOk, Tiles, Linked, Malloc, FirstFit, UsedBytes, Fits;
      TakeFacts(blocks, n);
      HeapTiles(blocks);
      Mark(cur, n, i);
      blocks := Malloc(blocks, n);
      HeaderAt(mem, blocks, i);
      used := used + mem[cur].size;
    }

    /** The headers after a block is taken. */
    method Mark(cur: nat, n: nat, ghost i: nat)
      requires Tiles(blocks, HEAP_START, HEAP_START + HEAP_SIZE) && Linked(mem, blocks)
      requires i < |blocks| && i == FirstFit(blocks, n) && cur == blocks[i].addr && Fits(blocks[i], n)
      modifies this`mem
      ensures Linked(mem, Malloc(blocks, n))
    {
      HeaderAt(mem, blocks, i);
      hide Tiles, Linked, Malloc, FirstFit, Carve, SplitMem;
      if mem[cur].size >= n + HEADER_SIZE + 16 {
        CarveIs(blocks, n);
        LinkedSplit(mem, blocks, HEAP_START, HEAP_START + HEAP_SIZE, i, n);
        Cut(cur, n);
      } else {
        WholeIs(blocks, n);
        LinkedMark(mem, blocks, HEAP_START, HEAP_START + HEAP_SIZE, i, false);
        mem := mem[cur := mem[cur].(free := false)];
      }
    }

    /** The block is cut in two, the second part free. */
    method Cut(cur: nat, n: nat)
      requires cur in mem && mem[cur].size >= n + HEADER_SIZE
      modifies this`mem
      ensures mem == SplitMem(old(mem), cur, old(mem)[cur], n)
    {
      var rest := cur + HEADER_SIZE + n;
      var was := mem[cur];
      mem := mem[rest := Header(was.size - n - HEADER_SIZE, true, was.next, HEAP_MAGIC)];
      mem := mem[cur := Header(n, false, rest, was.magic)];
    }

    /** kfree of any address.  Only the block whose payload it is can be freed: a stray address leaves
        the list as it is and can only spoil the counter. */
    method Kfree(ptr: nat)
      requires Valid()
      modifies this
      ensures HeapOk(blocks) && Linked(mem, blocks) && head == HEAP_START
      ensures used == UsedBytes(blocks) - old(Miscounted(mem, blocks, ptr))
      ensures Valid() <==> old(Miscounted(mem, blocks, ptr)) == 0
      ensures
        var i := Find(old(blocks), ptr);
        blocks == if i < |old(blocks)| then Release(old(blocks), i) else old(blocks)
    {
      hide HeapOk, Linked, UsedBytes, Release;
      ghost var i := Find(blocks, ptr);
      if ptr == 0 {
        NoNullPayload(blocks, i);
        return;
      }
      var block := ptr - HEADER_SIZE;
      if i < |blocks| {
        HeaderAt(mem, blocks, i);
      }
      if block !in mem || mem[block].magic != HEAP_MAGIC { return; }
      if mem[block].free { return; }
      FreeHeader(block, i);
    }

    /** The body of kfree once the header reads as a live block's. */
    method FreeHeader(block: nat, ghost i: nat)
      requires Valid() && i == Find(blocks, block + HEADER_SIZE) && ReadsLive(mem, block)
      modifies this
      ensures HeapOk(blocks) && Linked(mem, blocks) && head == HEAP_START
      ensures blocks == if i < |old(blocks)| then Release(old(blocks), i) else old(blocks)
      ensures used == UsedBytes(blocks) - old(Miscounted(mem, blocks, block + HEADER_SIZE))
    {
      FreedFacts(mem, blocks, i, block);
      hide HeapOk, Linked, UsedBytes, Merge, Tiles, Find, Release, Miscounted;
      mem := mem[block := mem[block].(free := true)];
      blocks := Freed(blocks, i);
      if used >= mem[block].size { used := used - mem[block].size; }
      Coalesce();
    }

    /** The client may write anything into memory that is not a header of the list. */
    method ClientWrites(memory: map<nat, Header>)
      requires Valid()
      requires forall i :: 0 <= i < |blocks| ==> blocks[i].addr in memory && memory[blocks[i].addr] == mem[blocks[i].addr]
      modifies this`mem
      ensures Valid() && blocks == old(blocks)
    {
      mem := memory;
    }
  }

  lemma FirstBlock(bs: seq<Block>)
    requires Tiles(bs, HEAP_START, HEAP_START + HEAP_SIZE)
    ensures |bs| > 0 && bs[0].addr == HEAP_START && MergeFrom(bs, 0) == Merge(bs)
  {
    assert bs[0..] == bs;
  }

  lemma HeapTiles(bs: seq<Block>)
    requires HeapOk(bs)
    ensures Tiles(bs, HEAP_START, HEAP_START + HEAP_SIZE)
  {}

  lemma HeaderAt(mem: map<nat, Header>, bs: seq<Block>, i: nat)
    requires Linked(mem, bs) && i < |bs|
    ensures bs[i].addr in mem && mem[bs[i].addr] == HeaderOf(bs, i)
  {}

  lemma JoinAt(bs: seq<Block>, i: nat)
    requires i + 1 < |bs|
    ensures |Join(bs, i)| == |bs| - 1 && Join(bs, i)[i].addr == bs[i].addr
  {}

  /** One turn of the coalescing loop that joins two neighbours, on memory and on the list. */
  lemma Joined(mem: map<nat, Header>, bs: seq<Block>, i: nat)
    requires Tiles(bs, HEAP_START, HEAP_START + HEAP_SIZE) && Linked(mem, bs) && i + 1 < |bs|
    requires bs[i].free && bs[i + 1].free
    ensures
      var r := Join(bs, i);
      var h, g := HeaderOf(bs, i), HeaderOf(bs, i + 1);
      var mem1 := mem[bs[i].addr := h.(size := h.size + HEADER_SIZE + g.size, next := g.next)];
      && Tiles(r, HEAP_START, HEAP_START + HEAP_SIZE) && Linked(mem1, r) && MergeFrom(r, i) == MergeFrom(bs, i)
      && |r| == |bs| - 1 && r[i].addr == bs[i].addr && mem1[bs[i].addr] == HeaderOf(r, i)
  {
    hide Tiles, Linked, MergeFrom, Join;
    JoinAt(bs, i);
    LinkedJoin(mem, bs, HEAP_START, HEAP_START + HEAP_SIZE, i);
    MergeFromJoin(bs, i);
    var h, g := HeaderOf(bs, i), HeaderOf(bs, i + 1);
    HeaderAt(mem[bs[i].addr := h.(size := h.size + HEADER_SIZE + g.size, next := g.next)], Join(bs, i), i);
  }

  lemma NextNotNull(bs: seq<Block>, i: nat)
    requires Tiles(bs, HEAP_START, HEAP_START + HEAP_SIZE) && i < |bs|
    ensures bs[i].addr != 0
  {
    Above(bs, HEAP_START, HEAP_START + HEAP_SIZE, i);
  }

  lemma AllSeen(bs: seq<Block>, i: nat)
    requires HeapOk(bs) && i <= |bs| && (i < |bs| ==> bs[i].addr == 0)
    ensures i == |bs|
  {
    if i < |bs| {
      Above(bs, HEAP_START, HEAP_START + HEAP_SIZE, i);
    }
  }

  /** A null link is the end of the list. */
  lemma NullIsLast(bs: seq<Block>, i: nat)
    requires Tiles(bs, HEAP_START, HEAP_START + HEAP_SIZE) && i < |bs| && NextAddr(bs, i) == 0
    ensures i + 1 == |bs| && MergeFrom(bs, i) == bs
  {
    if i + 1 < |bs| {
      Above(bs, HEAP_START, HEAP_START + HEAP_SIZE, i + 1);
    }
    assert bs[..i] + bs[i..] == bs;
  }

  /** Block i marked free, if there is one. */
  function Freed(bs: seq<Block>, i: nat): seq<Block> {
    if i < |bs| then bs[i := bs[i].(free := true)] else bs
  }

  /** Marking a live header free, on the list and on the counter. */
  lemma FreedFacts(mem: map<nat, Header>, bs: seq<Block>, i: nat, a: nat)
    requires HeapOk(bs) && Linked(mem, bs) && i == Find(bs, a + HEADER_SIZE) && ReadsLive(mem, a)
    ensures Linked(mem[a := mem[a].(free := true)], Freed(bs, i))
    ensures Tiles(Freed(bs, i), HEAP_START, HEAP_START + HEAP_SIZE) && HeapOk(Merge(Freed(bs, i)))
    ensures Merge(Freed(bs, i)) == if i < |bs| then Release(bs, i) else bs
    ensures UsedBytes(if i < |bs| then Release(bs, i) else bs) - Miscounted(mem, bs, a + HEADER_SIZE)
            == UsedBytes(bs) - if mem[a].size <= UsedBytes(bs) then mem[a].size else 0
  {
    hide HeapOk, UsedBytes, Merge, Tiles, Find, Linked;
    HeapTiles(bs);
    if i < |bs| {
      HeaderAt(mem, bs, i);
      ReleaseOk(bs, i);
      ReleaseUses(bs, i);
      MarkTiles(bs, i);
      LinkedMark(mem, bs, HEAP_START, HEAP_START + HEAP_SIZE, i, true);
    } else {
      NotListed(mem, bs, a);
      HeapIdle(bs);
    }
  }

  lemma HeapIdle(bs: seq<Block>)
    requires HeapOk(bs)
    ensures Merge(bs) == bs
  {
    MergeIdle(bs);
    hide Merge, Tiles;
  }

  /** A live header that belongs to no live block of the list is no header of the list. */
  lemma NotListed(mem: map<nat, Header>, bs: seq<Block>, a: nat)
    requires Linked(mem, bs) && Find(bs, a + HEADER_SIZE) == |bs| && ReadsLive(mem, a)
    ensures Linked(mem[a := mem[a].(free := true)], bs)
  {
    hide Find;
    forall i | 0 <= i < |bs| ensures bs[i].addr != a {
      assert mem[bs[i].addr] == HeaderOf(bs, i);
    }
  }

  /** A list with no two adjacent free blocks is left alone by coalescing. */
  lemma {:induction false} MergeIdle(bs: seq<Block>)
    requires NoTwoFree(bs)
    ensures Merge(bs) == bs
  {
    if |bs| > 1 {
      assert !(bs[0].free && bs[1].free);
      assert forall i :: 0 < i < |bs[1..]| ==> !(bs[i].free && bs[i + 1].free);
      MergeIdle(bs[1..]);
    }
  }

  lemma NoNullPayload(bs: seq<Block>, i: nat)
    requires i == Find(bs, 0)
    ensures i == |bs|
  {}

  lemma CarvedFirst(bs: seq<Block>, n: nat)
    requires FirstFit(bs, n) < |bs|
    ensures
      var i := FirstFit(bs, n);
      && i < |Malloc(bs, n)| && Malloc(bs, n)[i].addr == bs[i].addr
      && Malloc(bs, n)[i].size == (if Splits(bs[i], n) then n else bs[i].size)
      && n <= Malloc(bs, n)[i].size < n + 48
  {
    var i := FirstFit(bs, n);
    FirstFitFits(bs, n);
    assert Malloc(bs, n)[i] == Carve(bs[i], n)[0];
  }

  lemma TakeFacts(bs: seq<Block>, n: nat)
    requires HeapOk(bs) && n % 8 == 0 && FirstFit(bs, n) < |bs|
    ensures
      var i := FirstFit(bs, n);
      && HeapOk(Malloc(bs, n)) && i < |Malloc(bs, n)| && Malloc(bs, n)[i].addr == bs[i].addr
      && UsedBytes(Malloc(bs, n)) == UsedBytes(bs) + Malloc(bs, n)[i].size
      && n <= Malloc(bs, n)[i].size < n + 48
  {
    MallocOk(bs, n);
    MallocUses(bs, n);
    CarvedFirst(bs, n);
    hide HeapOk, Malloc, FirstFit, UsedBytes;
  }

  lemma CarveIs(bs: seq<Block>, n: nat)
    requires FirstFit(bs, n) < |bs|
    ensures
      var i := FirstFit(bs, n);
      bs[i].size >= n && Malloc(bs, n) == bs[..i] + Carve(bs[i], n) + bs[i + 1..]
  {
    FirstFitFits(bs, n);
  }

  lemma WholeIs(bs: seq<Block>, n: nat)
    requires FirstFit(bs, n) < |bs| && !Splits(bs[FirstFit(bs, n)], n)
    ensures
      var i := FirstFit(bs, n);
      Malloc(bs, n) == bs[i := bs[i].(free := false)]
  {
    FirstFitFits(bs, n);
  }

  lemma MarkTiles(bs: seq<Block>, i: nat)
    requires HeapOk(bs) && i < |bs|
    ensures Tiles(bs[i := bs[i].(free := true)], HEAP_START, HEAP_START + HEAP_SIZE)
  {}
}
