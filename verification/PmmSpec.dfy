/** kernel/pmm.c: a bitmap of physical pages built from the firmware's memory map. */
module PmmSpec {
  import opened Words

  const PAGE_SIZE := 4096
  const MEM_START := 0x20_0000
  const MEM_END := 0x400_0000
  const MAX_PAGES := (MEM_END - MEM_START) / PAGE_SIZE
  const BITMAP_BYTES := MAX_PAGES / 8 + 1

  datatype Kind = Usable | Reserved | AcpiReclaim | AcpiNvs | Bad | Other

  /** memmap_entry_t and memmap_t. */
  datatype Entry = Entry(base: u64, length: u64, kind: Kind)
  datatype Memmap = Memmap(initialized: bool, highest: u64, entries: seq<Entry>)

  predicate Blocks(k: Kind) {
    k == Reserved || k == AcpiNvs || k == Bad
  }

  // ---------------------------------------------------------------- the bitmap as a set

  /** bitmap_test on the bytes. */
  predicate Busy(bits: seq<u8>, p: nat)
    requires p / 8 < |bits|
  {
    TestBit(bits[p / 8], p % 8)
  }

  function BusyPages(bits: seq<u8>, total: nat): set<nat> {
    set p: nat | p < total && p / 8 < |bits| && Busy(bits, p)
  }

  lemma {:induction false} AndBit(b: nat, k: nat)
    ensures And(b, Pow2(k)) == if TestBit(b, k) then Pow2(k) else 0
  {
    if k == 0 {
      AndOne(b);
      TestBitLow(b);
      assert Pow2(0) == 1;
    } else {
      AndBit(b / 2, k - 1);
      TestBitShift(b, k);
      AndUnfold(b, Pow2(k));
      assert Pow2(k) / 2 == Pow2(k - 1) && Pow2(k) % 2 == 0;
      hide And, TestBit;
    }
  }

  /** Bit j of ~x in n bits. */
  lemma {:induction false} ComplementBit(x: nat, n: nat, j: nat)
    requires x < Pow2(n) && j < n
    ensures TestBit(Pow2(n) - 1 - x, j) == !TestBit(x, j)
  {
    var y := Pow2(n) - 1 - x;
    assert Pow2(n) == 2 * Pow2(n - 1);
    if j == 0 {
      TestBitLow(x);
      TestBitLow(y);
    } else {
      TestBitShift(x, j);
      TestBitShift(y, j);
      assert y / 2 == Pow2(n - 1) - 1 - x / 2;
      ComplementBit(x / 2, n - 1, j - 1);
    }
    hide TestBit;
  }

  /** 1 << (page % 8). */
  function Mask(p: nat): (m: u8)
    ensures m == Pow2(p % 8) && m > 0
  {
    Pow2Values();
    Pow2(p % 8)
  }

  function WithBit(b: u8, p: nat): u8 {
    Pow2Values();
    OrBound(b, Mask(p), 8);
    Or(b, Mask(p))
  }

  function WithoutBit(b: u8, p: nat): u8 {
    AndBound(b, 0xFF - Mask(p));
    And(b, 0xFF - Mask(p))
  }

  lemma WithBitTest(b: u8, p: nat, j: nat)
    requires j < 8
    ensures TestBit(WithBit(b, p), j) == (TestBit(b, j) || j == p % 8)
  {
    OrTestBit(b, Mask(p), j);
    TestBitPow2(p % 8, j);
    hide Or, TestBit, Pow2;
  }

  lemma WithoutBitTest(b: u8, p: nat, j: nat)
    requires j < 8
    ensures TestBit(WithoutBit(b, p), j) == (TestBit(b, j) && j != p % 8)
  {
    hide And, TestBit, Pow2;
    Pow2Values();
    AndTestBit(b, 0xFF - Mask(p), j);
    ComplementBit(Mask(p), 8, j);
    TestBitPow2(p % 8, j);
  }

  lemma SamePlace(p: nat, q: nat)
    ensures p == q <==> p / 8 == q / 8 && p % 8 == q % 8
  {}

  lemma SetPage(bits: seq<u8>, p: nat, total: nat)
    requires p < total <= 8 * |bits|
    ensures BusyPages(bits[p / 8 := WithBit(bits[p / 8], p)], total) == BusyPages(bits, total) + {p}
  {
    var c := bits[p / 8 := WithBit(bits[p / 8], p)];
    forall q: nat | q < total ensures Busy(c, q) == (Busy(bits, q) || q == p) {
      SamePlace(p, q);
      WithBitTest(bits[p / 8], p, q % 8);
    }
    hide WithBit, TestBit;
  }

  lemma ClearPage(bits: seq<u8>, p: nat, total: nat)
    requires p < total <= 8 * |bits|
    ensures BusyPages(bits[p / 8 := WithoutBit(bits[p / 8], p)], total) == BusyPages(bits, total) - {p}
  {
    var c := bits[p / 8 := WithoutBit(bits[p / 8], p)];
    forall q: nat | q < total ensures Busy(c, q) == (Busy(bits, q) && q != p) {
      SamePlace(p, q);
      WithoutBitTest(bits[p / 8], p, q % 8);
    }
    hide WithoutBit, TestBit;
  }

  /** What bitmap_test returns is not zero exactly for a busy page. */
  lemma TestIs(bits: seq<u8>, p: nat)
    requires p / 8 < |bits|
    ensures And(bits[p / 8], Mask(p)) != 0 <==> Busy(bits, p)
  {
    AndBit(bits[p / 8], p % 8);
    hide And, TestBit, Pow2;
  }

  // ---------------------------------------------------------------- ranges

  function Pages(lo: nat, hi: nat): set<nat> {
    set p: nat | p < hi && AtLeast(p, lo)
  }

  predicate AtLeast(p: nat, lo: nat) {
    lo <= p
  }

  /** mark_range's first page and the page after its last, in its 64-bit and 32-bit arithmetic. */
  function FirstPage(base: u64): u32
    requires base >= MEM_START
  {
    (base - MEM_START) / PAGE_SIZE % 0x1_0000_0000
  }

  function EndPage(base: u64, length: u64): u32 {
    var end := (base + length) % 0x1_0000_0000_0000_0000;
    (end - MEM_START + PAGE_SIZE - 1) % 0x1_0000_0000_0000_0000 / PAGE_SIZE % 0x1_0000_0000
  }

  /** The pages mark_range touches. */
  function RangePages(e: Entry, total: nat): set<nat> {
    if e.length == 0 then {}
    else if e.base < MEM_START then
      if MEM_START - e.base >= e.length then {}
      else
        var rest := e.length - (MEM_START - e.base);
        Pages(FirstPage(MEM_START), Lesser(EndPage(MEM_START, rest), total))
    else Pages(FirstPage(e.base), Lesser(EndPage(e.base, e.length), total))
  }

  function Lesser(a: nat, b: nat): nat {
    if a < b then a else b
  }

  /** The page shares a byte with the range. */
  predicate Overlaps(e: Entry, p: nat) {
    e.length > 0 && e.base < 0x20_0000 + 4096 * (p + 1) && 0x20_0000 + 4096 * p < e.base + e.length
  }

  /** The pages a range really starts and ends in, counted from the start of the managed area. */
  function TrueFirst(e: Entry): nat {
    if e.base < MEM_START then 0 else (e.base - MEM_START) / PAGE_SIZE
  }

  function TrueEnd(e: Entry): nat {
    if e.base + e.length < MEM_START then 0 else (e.base + e.length - MEM_START + PAGE_SIZE - 1) / PAGE_SIZE
  }

  /** The 32-bit page numbers of mark_range give the right pages of the first `total`: a range that
      starts among them must keep its end, one that starts past them must come out empty. */
  predicate MarksExactly(e: Entry, total: nat) {
    e.length == 0 || e.base + e.length <= MEM_START ||
    var first, end := TrueFirst(e), TrueEnd(e) % 0x1_0000_0000;
    if first < total then Lesser(end, total) == Lesser(TrueEnd(e), total)
    else Lesser(end, total) <= first % 0x1_0000_0000
  }

  /** Cutting a sum to 64 bits before the division does not show in the 32 bits kept after it. */
  lemma WrapBeforePages(x: nat)
    requires x < 2 * 0x1_0000_0000_0000_0000
    ensures x % 0x1_0000_0000_0000_0000 / PAGE_SIZE % 0x1_0000_0000 == x / PAGE_SIZE % 0x1_0000_0000
  {
    if x >= 0x1_0000_0000_0000_0000 {
      var y := x - 0x1_0000_0000_0000_0000;
      ModAddMul(y, 0x10_0000_0000_0000, 4096);
      ModAddMul(y / 4096, 0x10_0000, 0x1_0000_0000);
    }
  }

  lemma EndPageIs(base: u64, length: u64)
    requires MEM_START <= base && 0 < length
    ensures EndPage(base, length) == (base + length - MEM_START + PAGE_SIZE - 1) / PAGE_SIZE % 0x1_0000_0000
  {
    WrapBeforePages(base + length - MEM_START + PAGE_SIZE - 1);
    WrapTwice(base + length, MEM_START - PAGE_SIZE + 1);
  }

  lemma WrapTwice(x: nat, c: nat)
    requires c <= x < 2 * 0x1_0000_0000_0000_0000
    ensures (x % 0x1_0000_0000_0000_0000 - c) % 0x1_0000_0000_0000_0000 == (x - c) % 0x1_0000_0000_0000_0000
  {}

  /** The pages mark_range touches, from the true page numbers. */
  lemma RangePagesFrom(e: Entry, total: nat)
    requires e.length > 0 && e.base + e.length > MEM_START
    ensures RangePages(e, total) == Pages(TrueFirst(e) % 0x1_0000_0000, Lesser(TrueEnd(e) % 0x1_0000_0000, total))
  {
    if e.base < MEM_START {
      EndPageIs(MEM_START, e.length - (MEM_START - e.base));
    } else {
      EndPageIs(e.base, e.length);
    }
    hide EndPage, Pages;
  }

  lemma OverlapIs(e: Entry, p: nat)
    requires e.length > 0 && e.base + e.length > MEM_START
    ensures Overlaps(e, p) <==> TrueFirst(e) <= p < TrueEnd(e)
    ensures TrueFirst(e) < TrueEnd(e)
  {}

  /** mark_range touches exactly the pages that share a byte with a range whose page numbers fit. */
  lemma RangePagesAre(e: Entry, total: nat, p: nat)
    requires MarksExactly(e, total) && p < total < 0x1_0000_0000
    ensures p in RangePages(e, total) <==> Overlaps(e, p)
  {
    if e.length > 0 && e.base + e.length > MEM_START {
      RangePagesFrom(e, total);
      OverlapIs(e, p);
      Small(TrueFirst(e));
      hide TrueFirst, TrueEnd, RangePages, Overlaps;
    }
  }

  lemma Small(x: nat)
    ensures x < 0x1_0000_0000 ==> x % 0x1_0000_0000 == x
  {}

  /** A page on which mark_range goes wrong, when the page numbers do not fit. */
  lemma WrongPage(e: Entry, total: nat) returns (p: nat)
    requires !MarksExactly(e, total) && total < 0x1_0000_0000
    ensures p < total && (p in RangePages(e, total)) == !Overlaps(e, p)
  {
    RangePagesFrom(e, total);
    var first, end := TrueFirst(e), TrueEnd(e);
    Small(first);
    var a, b := Lesser(end % 0x1_0000_0000, total), Lesser(end, total);
    p := if first < total then Lesser(a, b) else first % 0x1_0000_0000;
    if first < total && p < first {
      p := first;
    }
    OverlapIs(e, p);
    hide TrueFirst, TrueEnd, RangePages, Overlaps;
  }

  /** mark_range touches exactly the pages a range shares a byte with if and only if its page numbers
      fit: for every 64-bit range and every number of managed pages. */
  lemma MarksExactlyIff(e: Entry, total: nat)
    requires total < 0x1_0000_0000
    ensures MarksExactly(e, total) <==> forall p :: 0 <= p < total ==> (p in RangePages(e, total) <==> Overlaps(e, p))
  {
    if MarksExactly(e, total) {
      forall p | 0 <= p < total ensures p in RangePages(e, total) <==> Overlaps(e, p) {
        RangePagesAre(e, total, p);
      }
    } else {
      var p := WrongPage(e, total);
    }
    hide MarksExactly, RangePages, Overlaps;
  }

  /** Every range that ends at most at 2^44 is one of them. */
  lemma LowRangesFit(e: Entry, total: nat)
    requires e.base + e.length <= 0x1000_0000_0000 && total < 0x1_0000_0000
    ensures MarksExactly(e, total)
  {
    Small(TrueFirst(e));
    Small(TrueEnd(e));
  }

  /** Past 2^44 some ranges fit and some do not: the first of these marks page 0, which it does not
      touch, the second marks nothing, as it should. */
  lemma HighRangeWraps()
    ensures
      var e, f := Entry(0x1000_0020_0000, PAGE_SIZE, Reserved), Entry(0x1000_1000_0000, PAGE_SIZE, Reserved);
      && !MarksExactly(e, 1) && 0 in RangePages(e, 1) && !Overlaps(e, 0)
      && MarksExactly(f, MAX_PAGES) && RangePages(f, MAX_PAGES) == {}
  {
    assert FirstPage(0x1000_0020_0000) == 0 && EndPage(0x1000_0020_0000, PAGE_SIZE) == 1;
    assert FirstPage(0x1000_1000_0000) == 0xFE00 && EndPage(0x1000_1000_0000, PAGE_SIZE) == 0xFE01;
  }

  // ---------------------------------------------------------------- the memory map

  function PagesOf(es: seq<Entry>, usable: bool, total: nat): set<nat> {
    if |es| == 0 then {}
    else
      var rest := PagesOf(es[..|es| - 1], usable, total);
      var e := es[|es| - 1];
      if (if usable then e.kind == Usable else Blocks(e.kind)) then rest + RangePages(e, total) else rest
  }

  /** The page shares a byte with a range of the map that is usable, or that is not to be used. */
  ghost predicate Touches(es: seq<Entry>, usable: bool, p: nat) {
    exists i :: 0 <= i < |es| && Overlaps(es[i], p)
                && if usable then es[i].kind == Usable
                   else es[i].kind == Reserved || es[i].kind == AcpiNvs || es[i].kind == Bad
  }

  /** Every range the map marks has page numbers that fit. */
  ghost predicate AllFit(es: seq<Entry>, total: nat) {
    forall i :: 0 <= i < |es| && (es[i].kind == Usable || Blocks(es[i].kind)) ==> MarksExactly(es[i], total)
  }

  lemma {:induction false} PagesOfAre(es: seq<Entry>, usable: bool, total: nat, p: nat)
    requires p < total < 0x1_0000_0000 && AllFit(es, total)
    ensures p in PagesOf(es, usable, total) <==> Touches(es, usable, p)
  {
    if |es| > 0 {
      var n := |es| - 1;
      PagesOfAre(es[..n], usable, total, p);
      if es[n].kind == Usable || Blocks(es[n].kind) {
        RangePagesAre(es[n], total, p);
      }
      assert forall i :: 0 <= i < n ==> es[..n][i] == es[i];
      hide RangePages, Overlaps, MarksExactly;
    }
  }

  /** The managed pages and the busy ones after pmm_apply_memmap. */
  function CapEnd(m: Memmap): nat {
    if m.highest != 0 && m.highest < MEM_END then m.highest else MEM_END
  }

  function ManagedPages(m: Memmap): nat {
    if CapEnd(m) <= MEM_START then 0 else (CapEnd(m) - MEM_START) / PAGE_SIZE
  }

  function BusyAfter(m: Memmap): set<nat> {
    var total := ManagedPages(m);
    var all := Pages(0, total);
    (all - PagesOf(m.entries, true, total)) + PagesOf(m.entries, false, total) + (if total > 0 then {0} else {})
  }

  /** A managed page other than page 0 is free exactly when it overlaps a usable range and no
      reserved, NVS or bad one, for every map whose ranges have page numbers that fit. */
  lemma FreeIff(m: Memmap, p: nat)
    requires AllFit(m.entries, ManagedPages(m)) && p < ManagedPages(m)
    ensures p !in BusyAfter(m) <==> p != 0 && Touches(m.entries, true, p) && !Touches(m.entries, false, p)
  {
    assert ManagedPages(m) <= MAX_PAGES;
    PagesOfAre(m.entries, true, ManagedPages(m), p);
    PagesOfAre(m.entries, false, ManagedPages(m), p);
    hide PagesOf, Touches, ManagedPages;
  }

  /** The managed pages are those that lie wholly between 2 MiB and the end of usable memory, at most
      64 MiB. */
  lemma ManagedIff(m: Memmap, p: nat)
    ensures
      var end := if m.highest != 0 && m.highest < 0x400_0000 then m.highest else 0x400_0000;
      p < ManagedPages(m) <==> 0x20_0000 + 4096 * (p + 1) <= end
  {}
}
