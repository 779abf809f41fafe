/** The bitmap and counter of kernel/pmm.c, updated in place. */
module Pmm {
  import opened Words
  import opened PmmSpec

  class PageMap {
    const bitmap: array<u8>
    var used: nat
    var total: nat

    ghost predicate Valid()
      reads this, bitmap
    {
      total <= MAX_PAGES && BITMAP_BYTES <= bitmap.Length && used == |BusyPages(bitmap[..], total)|
    }

    ghost function BusySet(): set<nat>
      reads this, bitmap
    {
      BusyPages(bitmap[..], total)
    }

    /** pmm_init. */
    constructor (memory: array<u8>)
      requires BITMAP_BYTES <= memory.Length
      modifies memory
      ensures Valid() && bitmap == memory && total == MAX_PAGES && BusySet() == {}
    {
      bitmap, used, total := memory, 0, MAX_PAGES;
      new;
      for i := 0 to BITMAP_BYTES
        modifies bitmap
        invariant forall k :: 0 <= k < i ==> bitmap[k] == 0
      {
        bitmap[i] := 0;
      }
      NoneBusy(bitmap[..], total);
    }

    /** mark_range: exactly the pages of the range become busy, or free. */
    method MarkRange(base: u64, length: u64, busy: bool)
      requires Valid()
      modifies this`used, bitmap
      ensures Valid()
      ensures
        var r := RangePages(Entry(base, length, Other), total);
        BusySet() == Marked(old(BusySet()), r, busy)
    {
      hide BusyPages, Marked, Pages, RangePages, FirstPage, EndPage;
      RangeIs(Entry(base, length, Other), total);
      NothingMarked(BusySet(), busy);
      var b, l := base, length;
      if l == 0 { return; }
      if b < MEM_START {
        var skip := MEM_START - b;
        if skip >= l { return; }
        b := b + skip;
        l := l - skip;
      }
      MarkPages(FirstPage(b), Lesser(EndPage(b, l), total), busy);
    }

    /** The loop of mark_range. */
    method MarkPages(first: nat, last: nat, busy: bool)
      requires Valid() && last <= total
      modifies this`used, bitmap
      ensures Valid()
      ensures BusySet() == Marked(old(BusySet()), Pages(first, last), busy)
    {
      ghost var was := BusySet();
      var p := first;
      NoneMarked(was, first, busy);
      hide BusyPages, Pages, Marked, Valid;
      while p < last
        modifies this`used, bitmap
        invariant first <= p && (p <= last || p == first) && Valid()
        invariant BusySet() == Marked(was, Pages(first, p), busy)
      {
        NextMarked(was, first, p, busy);
        SetOne(p, busy);
        p := p + 1;
      }
      SamePages(first, p, last);
    }

    /** One page of a range. */
    method SetOne(p: nat, busy: bool)
      requires Valid() && p < total
      modifies this`used, bitmap
      ensures Valid()
      ensures BusySet() == Marked(old(BusySet()), {p}, busy)
    {
      TestIs(bitmap[..], p);
      SetPage(bitmap[..], p, total);
      ClearPage(bitmap[..], p, total);
      BusyIs(bitmap[..], p, total);
      hide BusyPages, WithBit, WithoutBit, And, Mask, Busy;
      ghost var bits := bitmap[..];
      if busy {
        if And(bitmap[p / 8], Mask(p)) == 0 {
          bitmap[p / 8] := WithBit(bitmap[p / 8], p);
          used := used + 1;
          assert bitmap[..] == bits[p / 8 := WithBit(bits[p / 8], p)];
        }
      } else if And(bitmap[p / 8], Mask(p)) != 0 {
        bitmap[p / 8] := WithoutBit(bitmap[p / 8], p);
        if used != 0 { used := used - 1; }
        assert bitmap[..] == bits[p / 8 := WithoutBit(bits[p / 8], p)];
      }
    }

    /** pmm_apply_memmap. When the map's memory ends at or below the managed area it reports no
        pages and changes nothing. */
    method ApplyMemmap(m: Memmap) returns (n: nat)
      requires Valid()
      modifies this, bitmap
      ensures Valid()
      ensures
        if !m.initialized then n == total == old(total) && BusySet() == old(BusySet())
        else if CapEnd(m) <= MEM_START then n == 0 && total == old(total) && BusySet() == old(BusySet())
        else n == total == ManagedPages(m) && BusySet() == BusyAfter(m)
    {
      if !m.initialized { return total; }
      var capEnd: u64 := MEM_END;
      if m.highest != 0 && m.highest < capEnd { capEnd := m.highest; }
      if capEnd <= MEM_START { return 0; }
      total := (capEnd - MEM_START) / PAGE_SIZE;
      FillBusy();
      hide BusyPages, PagesOf, RangePages;
      MarkKind(m.entries, true);
      MarkKind(m.entries, false);
      if total > 0 { SetOne(0, true); }
      return total;
    }

    /** Every page of the managed area busy. */
    method FillBusy()
      requires total <= MAX_PAGES && BITMAP_BYTES <= bitmap.Length
      modifies this`used, bitmap
      ensures Valid() && BusySet() == Pages(0, total)
    {
      for i := 0 to total / 8 + 1
        modifies bitmap
        invariant forall k :: 0 <= k < i ==> bitmap[k] == 0xFF
      {
        bitmap[i] := 0xFF;
      }
      used := total;
      AllBusy(bitmap[..], total);
    }

    /** The two loops over the entries of the map. */
    method MarkKind(es: seq<Entry>, usable: bool)
      requires Valid()
      modifies this`used, bitmap
      ensures Valid()
      ensures BusySet() == Marked(old(BusySet()), PagesOf(es, usable, total), !usable)
    {
      ghost var was := BusySet();
      NoPages(was, usable, total);
      hide BusyPages, PagesOf, RangePages, Marked;
      assert es[..0] == [];
      for i := 0 to |es|
        modifies this`used, bitmap
        invariant Valid()
        invariant BusySet() == Marked(was, PagesOf(es[..i], usable, total), !usable)
      {
        MorePages(was, es, i, usable, total);
        if usable {
          if es[i].kind == Usable { MarkRange(es[i].base, es[i].length, false); }
        } else if es[i].kind == Reserved || es[i].kind == AcpiNvs || es[i].kind == Bad {
          MarkRange(es[i].base, es[i].length, true);
        }
      }
      assert es[..|es|] == es;
    }

    /** pmm_alloc_page: the first free page, now busy, or 0 when every page is busy. */
    method AllocPage() returns (addr: nat)
      requires Valid()
      modifies this`used, bitmap
      ensures Valid()
      ensures addr == 0 ==> BusySet() == old(BusySet()) == Pages(0, total)
      ensures addr != 0 ==>
        exists p :: 0 <= p < total && addr == 0x20_0000 + 4096 * p && FirstFree(old(BusySet()), p)
                    && p !in old(BusySet()) && (forall q :: 0 <= q < p ==> q in old(BusySet()))
                    && BusySet() == old(BusySet()) + {p}
    {
      ghost var was := BusySet();
      hide BusyPages, And, Mask, Busy;
      var i := 0;
      FirstTest(bitmap[..], 0, total);
      while i < total && And(bitmap[i / 8], Mask(i)) != 0
        modifies {}
        invariant 0 <= i <= total && forall q :: 0 <= q < i ==> q in was
        invariant i < total ==> (And(bitmap[i / 8], Mask(i)) != 0 <==> i in was)
      {
        FirstTest(bitmap[..], i + 1, total);
        i := i + 1;
      }
      if i == total {
        WithinTotal(bitmap[..], total);
        return 0;
      }
      assert FirstFree(was, i);
      SetOne(i, true);
      return MEM_START + i * PAGE_SIZE;
    }

    /** pmm_free_page, with its address cut to 32 bits. */
    method FreePage(addr: u64)
      requires Valid()
      modifies this`used, bitmap
      ensures Valid()
      ensures BusySet() == if PageAt(addr) < total then old(BusySet()) - {PageAt(addr)} else old(BusySet())
    {
      var page := PageAt(addr);
      if page < total { SetOne(page, false); }
    }
  }

  /** The busy pages after a range is marked. */
  function Marked(was: set<nat>, r: set<nat>, busy: bool): set<nat> {
    if busy then was + r else was - r
  }

  /** ((uint32_t)addr - PMM_MEM_START) / PAGE_SIZE. */
  function PageAt(addr: u64): nat {
    (addr % 0x1_0000_0000 - MEM_START) % 0x1_0000_0000 / PAGE_SIZE
  }

  /** The page pmm_free_page frees is a managed one exactly when the low 32 bits of the address lie
      in the managed area, and it contains the address exactly when nothing was cut off: an address
      below the area frees nothing, one past 4 GiB can free a page it does not lie in. */
  lemma FreesItsPageIff(addr: u64, total: nat)
    requires total <= MAX_PAGES
    ensures
      var low, p := addr % 0x1_0000_0000, PageAt(addr);
      && (p < total <==> MEM_START <= low < MEM_START + PAGE_SIZE * total)
      && (p < total ==> (MEM_START + PAGE_SIZE * p <= addr < MEM_START + PAGE_SIZE * (p + 1) <==> addr < 0x1_0000_0000))
  {
    var low := addr % 0x1_0000_0000;
    assert PageAt(addr) == (low - MEM_START) % 0x1_0000_0000 / PAGE_SIZE;
    if low >= MEM_START {
      Narrow(low - MEM_START);
    } else {
      WrapBelow(MEM_START - low);
    }
  }

  lemma Narrow(x: nat)
    requires x < 0x1_0000_0000
    ensures x % 0x1_0000_0000 == x
  {}

  lemma WrapBelow(x: int)
    requires 0 < x <= MEM_START
    ensures (-x) % 0x1_0000_0000 == 0x1_0000_0000 - x
  {}

  predicate FirstFree(busy: set<nat>, p: nat) {
    p !in busy && forall q :: 0 <= q < p ==> q in busy
  }

  /** Freeing the address that was allocated frees that page. */
  lemma PageAtAlloc(p: nat)
    requires p < MAX_PAGES
    ensures MEM_START + PAGE_SIZE * p < MEM_END && PageAt(MEM_START + PAGE_SIZE * p) == p
  {}

  lemma FirstTest(bits: seq<u8>, p: nat, total: nat)
    requires total <= 8 * |bits|
    ensures p < total ==> (And(bits[p / 8], Mask(p)) != 0 <==> p in BusyPages(bits, total))
  {
    if p < total {
      TestIs(bits, p);
    }
    hide And, Mask, TestBit;
  }

  lemma NothingMarked(was: set<nat>, busy: bool)
    ensures Marked(was, {}, busy) == was
  {}

  /** mark_range by cases. */
  lemma RangeIs(e: Entry, total: nat)
    ensures e.length == 0 || (e.base < MEM_START && MEM_START - e.base >= e.length) ==> RangePages(e, total) == {}
    ensures e.base >= MEM_START && e.length > 0 ==>
      RangePages(e, total) == Pages(FirstPage(e.base), Lesser(EndPage(e.base, e.length), total))
    ensures e.base < MEM_START && MEM_START - e.base < e.length ==>
      RangePages(e, total) == Pages(FirstPage(MEM_START), Lesser(EndPage(MEM_START, e.length - (MEM_START - e.base)), total))
  {
    hide Pages, FirstPage, EndPage;
  }

  lemma BusyIs(bits: seq<u8>, p: nat, total: nat)
    requires p < total <= 8 * |bits|
    ensures p in BusyPages(bits, total) <==> Busy(bits, p)
  {}

  lemma WithinTotal(bits: seq<u8>, total: nat)
    requires total <= 8 * |bits| && forall q :: 0 <= q < total ==> q in BusyPages(bits, total)
    ensures BusyPages(bits, total) == Pages(0, total)
  {}

  lemma NoneBusy(bits: seq<u8>, total: nat)
    requires total / 8 < |bits| && forall k :: 0 <= k <= total / 8 ==> bits[k] == 0
    ensures BusyPages(bits, total) == {}
  {
    forall p: nat | p < total ensures !Busy(bits, p) {
      TestBitZero(p % 8);
    }
    hide TestBit;
  }

  lemma AllBusy(bits: seq<u8>, total: nat)
    requires total / 8 < |bits| && forall k :: 0 <= k <= total / 8 ==> bits[k] == 0xFF
    ensures BusyPages(bits, total) == Pages(0, total) && |BusyPages(bits, total)| == total
  {
    forall p: nat | p < total ensures Busy(bits, p) {
      Pow2Values();
      ComplementBit(0, 8, p % 8);
      TestBitZero(p % 8);
    }
    hide TestBit, Pow2;
    PagesSize(0, total);
  }

  lemma {:induction false} PagesSize(lo: nat, hi: nat)
    requires lo <= hi
    ensures |Pages(lo, hi)| == hi - lo
    decreases hi - lo
  {
    if lo < hi {
      PagesSize(lo, hi - 1);
      assert Pages(lo, hi) == Pages(lo, hi - 1) + {hi - 1};
    } else {
      assert Pages(lo, hi) == {};
    }
  }

  lemma NoneMarked(was: set<nat>, lo: nat, busy: bool)
    ensures Marked(was, Pages(lo, lo), busy) == was
  {}

  lemma NextMarked(was: set<nat>, lo: nat, p: nat, busy: bool)
    requires lo <= p
    ensures Marked(Marked(was, Pages(lo, p), busy), {p}, busy) == Marked(was, Pages(lo, p + 1), busy)
  {}

  lemma SamePages(lo: nat, p: nat, hi: nat)
    requires lo <= p && p >= hi && (p <= hi || p == lo)
    ensures Pages(lo, p) == Pages(lo, hi)
  {}

  lemma NoPages(was: set<nat>, usable: bool, total: nat)
    ensures Marked(was, PagesOf([], usable, total), !usable) == was
  {}

  lemma MorePages(was: set<nat>, es: seq<Entry>, i: nat, usable: bool, total: nat)
    requires i < |es|
    ensures
      var before := Marked(was, PagesOf(es[..i], usable, total), !usable);
      Marked(was, PagesOf(es[..i + 1], usable, total), !usable)
      == if (if usable then es[i].kind == Usable else Blocks(es[i].kind))
         then Marked(before, RangePages(Entry(es[i].base, es[i].length, Other), total), !usable) else before
  {
    assert es[..i + 1][..i] == es[..i];
    SameRange(es[i], total);
    hide RangePages;
  }

  lemma SameRange(e: Entry, total: nat)
    ensures RangePages(Entry(e.base, e.length, Other), total) == RangePages(e, total)
  {}
}
