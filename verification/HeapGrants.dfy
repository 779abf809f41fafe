/** What a request is granted, in addresses and bytes, and what the layout of the heap depends on. */
module HeapGrants {
  import opened Words
  import opened HeapSpec

  /** No free block has n bytes. */
  predicate NoRoom(bs: seq<Block>, n: nat) {
    forall j :: 0 <= j < |bs| ==> !(bs[j].free && bs[j].size >= n)
  }

  /** Block i is the first free one that has n bytes. */
  predicate IsFirst(bs: seq<Block>, n: nat, i: nat) {
    i < |bs| && bs[i].free && bs[i].size >= n && forall j :: 0 <= j < i ==> !(bs[j].free && bs[j].size >= n)
  }

  /** The first free block that is large enough is cut when it has 48 bytes more than wanted, its rest a
      free block up to the old end, and taken whole otherwise; no other block changes. */
  lemma GrantEffect(bs: seq<Block>, n: nat, i: nat)
    requires IsFirst(bs, n, i)
    ensures
      var b, r := bs[i], Malloc(bs, n);
      && r == (if b.size >= n + 48
               then bs[..i] + [Block(b.addr, n, false), Block(b.addr + 32 + n, b.size - n - 32, true)] + bs[i + 1..]
               else bs[..i] + [Block(b.addr, b.size, false)] + bs[i + 1..])
      && i < |r| && r[i].addr == b.addr && n <= r[i].size < n + 48
  {
    FirstFitIs(bs, n, i);
    hide FirstFit;
  }

  /** A request is refused exactly when no free block is large enough, and then nothing changes. */
  lemma RefusedIff(bs: seq<Block>, n: nat)
    ensures FirstFit(bs, n) == |bs| <==> NoRoom(bs, n)
    ensures FirstFit(bs, n) < |bs| ==> IsFirst(bs, n, FirstFit(bs, n))
    ensures NoRoom(bs, n) ==> Malloc(bs, n) == bs
  {
    FirstFitFits(bs, n);
    if NoRoom(bs, n) {
      FirstFitIs(bs, n, |bs|);
    }
    hide FirstFit;
  }

  /** The request in whole words of eight bytes, as 64 bits hold it. */
  function Rounded(size: u64): nat {
    (size + 7) % 0x1_0000_0000_0000_0000 / 8 * 8
  }

  /** A request that finds room gets the first block that has any, and fewer than 48 bytes more than it
      asked for in whole words; otherwise nothing changes. */
  lemma AllocEffect(s: State, size: u64) returns (i: nat, k: nat)
    requires StateOk(s)
    ensures
      var n, t := Rounded(size), Step(s, Alloc(size));
      if size == 0 || NoRoom(s.blocks, n) then t == s
      else
        && IsFirst(s.blocks, n, i) && n <= k < n + 48 && s.blocks[i].addr + 32 !in s.held
        && t.held == s.held[s.blocks[i].addr + 32 := k] && t.used == s.used + k
  {
    hide HeapOk, LiveAreHeld, HeldAreLive, Malloc, FirstFit, RoundUp, UsedBytes;
    RoundUpIs(size);
    var n := Rounded(size);
    RefusedIff(s.blocks, n);
    i, k := 0, 0;
    if size != 0 && !NoRoom(s.blocks, n) {
      i := FirstFit(s.blocks, n);
      AllocAgrees(s.blocks, s.held, n);
      GrantEffect(s.blocks, n, i);
      k := Malloc(s.blocks, n)[i].size;
    }
  }

  /** What freeing does to the payloads: a held one is given back with all its bytes, any other address
      changes nothing. */
  lemma FreeEffect(s: State, ptr: nat)
    requires StateOk(s)
    ensures
      var t := Step(s, Free(ptr));
      if ptr in s.held then t.held == s.held - {ptr} && t.used == s.used - s.held[ptr] else t == s
  {
    hide HeapOk, Release, UsedBytes;
    var i := Find(s.blocks, ptr);
    if ptr in s.held {
      HeldFound(s, ptr);
    }
    if i < |s.blocks| {
      assert IsHeld(s.held, s.blocks[i]);
    }
    hide Find;
  }

  lemma HeldFound(s: State, ptr: nat)
    requires HeldAreLive(s.blocks, s.held) && ptr in s.held
    ensures Find(s.blocks, ptr) < |s.blocks|
  {
    var b := HeldBlock(s.held, ptr);
    var j :| 0 <= j < |s.blocks| && s.blocks[j] == b;
    assert Payload(s.blocks[j]) == ptr;
  }

  /** Request k of the run was granted the payload p. */
  ghost predicate GrantedAt(rs: seq<Request>, k: nat, p: nat) {
    && k < |rs| && rs[k].Alloc? && rs[k].size != 0
    && p !in Run(rs[..k]).held && p in Run(rs[..k + 1]).held
  }

  /** Every payload held after a run was granted to one request of it, and has at least the bytes of
      that request in whole words and fewer than 48 more. */
  lemma {:induction false} HeldSize(rs: seq<Request>, p: nat) returns (k: nat)
    requires p in Run(rs).held
    ensures GrantedAt(rs, k, p) && Rounded(rs[k].size) <= Run(rs).held[p] < Rounded(rs[k].size) + 48
  {
    hide StateOk, Rounded, NoRoom, Step;
    var n := |rs| - 1;
    var front, r := rs[..n], rs[n];
    RunOk(front);
    assert rs[..n + 1] == rs;
    if r.Alloc? {
      var i, size := AllocEffect(Run(front), r.size);
    } else {
      FreeEffect(Run(front), r.ptr);
    }
    if p in Run(front).held {
      k := HeldSize(front, p);
      assert front[..k] == rs[..k] && front[..k + 1] == rs[..k + 1];
    } else {
      k := n;
    }
  }

  // ---------------------------------------------------------------- the layout

  lemma LiveFirst(bs: seq<Block>, lo: nat, hi: nat)
    requires Tiles(bs, lo, hi) && NoTwoFree(bs) && bs[0].free
    ensures if |bs| == 1 then End(bs[0]) == hi else !bs[1].free && bs[1].addr == End(bs[0]) && bs[1] in bs
  {}

  lemma TilesRest(bs: seq<Block>, lo: nat, hi: nat)
    requires Tiles(bs, lo, hi) && NoTwoFree(bs) && |bs| > 1
    ensures Tiles(bs[1..], End(bs[0]), hi) && NoTwoFree(bs[1..]) && bs[1..][0] == bs[1]
  {
    var t := bs[1..];
    assert forall i :: 0 < i < |t| ==> t[i] == bs[i + 1] && t[i - 1] == bs[i];
  }

  /** A block of a tiling other than the first begins no earlier than the first one's end. */
  lemma AfterFirst(bs: seq<Block>, lo: nat, hi: nat, b: Block)
    requires Tiles(bs, lo, hi) && b in bs
    ensures b == bs[0] || End(bs[0]) <= b.addr
    ensures lo <= b.addr && End(b) <= hi
  {
    var i :| 0 <= i < |bs| && bs[i] == b;
    if i > 0 {
      Ordered(bs, lo, hi, 0, i);
    }
    Above(bs, lo, hi, i);
    Below(bs, lo, hi, i);
  }

  /** The same live blocks. */
  ghost predicate SameLive(bs: seq<Block>, cs: seq<Block>) {
    forall b: Block :: !b.free ==> (b in bs <==> b in cs)
  }

  /** A first block that is free ends where the first live block begins, or with the heap. */
  lemma FreeFirst(bs: seq<Block>, cs: seq<Block>, lo: nat, hi: nat)
    requires Tiles(bs, lo, hi) && NoTwoFree(bs) && Tiles(cs, lo, hi) && NoTwoFree(cs) && SameLive(bs, cs)
    requires bs[0].free
    ensures cs[0].free && End(cs[0]) <= End(bs[0])
  {
    LiveFirst(bs, lo, hi);
    if !cs[0].free {
      assert cs[0] in bs;
      AfterFirst(bs, lo, hi, cs[0]);
      assert false;
    }
    if |bs| > 1 {
      assert bs[1] in cs;
      AfterFirst(cs, lo, hi, bs[1]);
    } else {
      AfterFirst(cs, lo, hi, cs[0]);
    }
  }

  /** Two tilings of the same ground with no two free neighbours and the same live blocks are equal. */
  lemma {:induction false} LiveDetermines(bs: seq<Block>, cs: seq<Block>, lo: nat, hi: nat)
    requires Tiles(bs, lo, hi) && NoTwoFree(bs) && Tiles(cs, lo, hi) && NoTwoFree(cs) && SameLive(bs, cs)
    ensures bs == cs
    decreases |bs|
  {
    FirstSame(bs, cs, lo, hi);
    RestSame(bs, cs, lo, hi);
    if |bs| > 1 {
      TilesRest(bs, lo, hi);
      TilesRest(cs, lo, hi);
      LiveDetermines(bs[1..], cs[1..], End(bs[0]), hi);
    }
    assert bs == [bs[0]] + bs[1..] && cs == [cs[0]] + cs[1..];
    hide Tiles, NoTwoFree, SameLive;
  }

  lemma FirstSame(bs: seq<Block>, cs: seq<Block>, lo: nat, hi: nat)
    requires Tiles(bs, lo, hi) && NoTwoFree(bs) && Tiles(cs, lo, hi) && NoTwoFree(cs) && SameLive(bs, cs)
    ensures bs[0] == cs[0]
  {
    if bs[0].free {
      FreeFirst(bs, cs, lo, hi);
      FreeFirst(cs, bs, lo, hi);
    } else {
      assert bs[0] in cs;
      AfterFirst(cs, lo, hi, bs[0]);
    }
  }

  lemma RestSame(bs: seq<Block>, cs: seq<Block>, lo: nat, hi: nat)
    requires Tiles(bs, lo, hi) && Tiles(cs, lo, hi) && bs[0] == cs[0] && SameLive(bs, cs)
    ensures |bs| > 1 <==> |cs| > 1
    ensures SameLive(bs[1..], cs[1..])
  {
    if |bs| > 1 && |cs| == 1 {
      assert bs[1] in bs;
      AfterFirst(bs, lo, hi, bs[1]);
      assert false;
    }
    if |cs| > 1 && |bs| == 1 {
      assert cs[1] in cs;
      AfterFirst(cs, lo, hi, cs[1]);
      assert false;
    }
    forall b: Block | !b.free ensures b in bs[1..] <==> b in cs[1..] {
      NotFirst(bs, lo, hi, b);
      NotFirst(cs, lo, hi, b);
    }
  }

  lemma NotFirst(bs: seq<Block>, lo: nat, hi: nat, b: Block)
    requires Tiles(bs, lo, hi)
    ensures b in bs[1..] <==> b in bs && b != bs[0]
  {
    if b in bs[1..] {
      var i :| 0 <= i < |bs[1..]| && bs[1..][i] == b;
      assert bs[i + 1] == b;
      Ordered(bs, lo, hi, 0, i + 1);
    }
    if b in bs && b != bs[0] {
      var i :| 0 <= i < |bs| && bs[i] == b;
      assert bs[1..][i - 1] == b;
    }
  }

  /** The layout has no memory: two runs that leave the client the same payloads leave the same blocks,
      whatever was allocated and freed in between and in whatever order. */
  lemma LayoutIsHeld(rs: seq<Request>, qs: seq<Request>)
    requires Run(rs).held == Run(qs).held
    ensures Run(rs) == Run(qs)
  {
    hide Run;
    RunOk(rs);
    RunOk(qs);
    var s, t := Run(rs), Run(qs);
    forall b: Block | !b.free ensures b in s.blocks <==> b in t.blocks {
      LiveIffHeld(s, b);
      LiveIffHeld(t, b);
    }
    LiveDetermines(s.blocks, t.blocks, HEAP_START, HEAP_START + HEAP_SIZE);
  }

  lemma LiveIffHeld(s: State, b: Block)
    requires StateOk(s) && !b.free
    ensures b in s.blocks <==> Payload(b) in s.held && s.held[Payload(b)] == b.size
  {
    hide HeapOk, UsedBytes;
    if b in s.blocks {
      assert IsHeld(s.held, b);
    }
    if Payload(b) in s.held && s.held[Payload(b)] == b.size {
      var p := Payload(b);
      assert HeldBlock(s.held, p) == b;
    }
  }

  /** A grant of exactly n bytes cut off block i. */
  lemma CutStep(s: State, size: u64, n: nat, i: nat, bs: seq<Block>)
    requires size != 0 && n == Rounded(size) && IsFirst(s.blocks, n, i) && s.blocks[i].size >= n + 48
    requires
      var b := s.blocks[i];
      bs == s.blocks[..i] + [Block(b.addr, n, false), Block(b.addr + 32 + n, b.size - n - 32, true)] + s.blocks[i + 1..]
    ensures Step(s, Alloc(size)) == State(bs, s.used + n, s.held[s.blocks[i].addr + 32 := n])
  {
    hide RoundUp, Malloc, FirstFit;
    RoundUpIs(size);
    GrantEffect(s.blocks, n, i);
    FirstFitIs(s.blocks, n, i);
  }

  /** Two requests of 8 bytes on the fresh heap: where they are, and what is left. */
  lemma FirstTwoGrants()
    ensures Run([Alloc(8), Alloc(8)]) ==
      State([Block(0x50_0000, 8, false), Block(0x50_0028, 8, false), Block(0x50_0050, 0x7F_FF90, true)], 16,
            map[0x50_0020 := 8, 0x50_0048 := 8])
  {
    hide Step, Run;
    RunNone();
    RunSnoc([], Alloc(8));
    RunSnoc([Alloc(8)], Alloc(8));
    assert [] + [Alloc(8)] == [Alloc(8)];
    assert [Alloc(8)] + [Alloc(8)] == [Alloc(8), Alloc(8)];
    var b0 := [Block(0x50_0000, 0x7F_FFE0, true)];
    var b1 := [Block(0x50_0000, 8, false), Block(0x50_0028, 0x7F_FFB8, true)];
    var b2 := [Block(0x50_0000, 8, false), Block(0x50_0028, 8, false), Block(0x50_0050, 0x7F_FF90, true)];
    assert b0[..0] + b1 + b0[1..] == b1;
    CutStep(State(b0, 0, map[]), 8, 8, 0, b1);
    assert b1[..1] + b2[1..] + b1[2..] == b2;
    CutStep(State(b1, 8, map[0x50_0020 := 8]), 8, 8, 1, b2);
  }

  lemma RunNone()
    ensures Run([]) == State(InitialBlocks(), 0, map[])
  {}

  lemma RunSnoc(rs: seq<Request>, r: Request)
    ensures Run(rs + [r]) == Step(Run(rs), r)
  {
    assert (rs + [r])[..|rs|] == rs;
    hide Step;
  }
}
