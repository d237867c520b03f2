/** The physical page allocator: a bitmap and a counter that stand for a set of free pages. */
module PmmModule {
  import opened Bytes

  const MAX_PAGES := 0x10_0000
  const PAGE_SIZE := 4096
  const WORD64 := 0x1_0000_0000_0000_0000

  // ---------------------------------------------------------------------------------------
  // Bits
  // ---------------------------------------------------------------------------------------

  /** `1u << k` for a bit position within a byte. */
  function Mask(k: nat): bv8
    requires k < 8
  {
    if k == 0 then 1 else if k == 1 then 2 else if k == 2 then 4 else if k == 3 then 8
    else if k == 4 then 16 else if k == 5 then 32 else if k == 6 then 64 else 128
  }

  predicate Bit(b: bv8, k: nat)
    requires k < 8
  {
    b & Mask(k) != 0
  }

  lemma SetOneBit(b: bv8, k: nat, j: nat)
    requires k < 8 && j < 8
    ensures Bit(b | Mask(k), j) <==> j == k || Bit(b, j)
  {
  }

  lemma ClearOneBit(b: bv8, k: nat, j: nat)
    requires k < 8 && j < 8
    ensures Bit(b & !Mask(k), j) <==> j != k && Bit(b, j)
  {
  }

  /** Whether the page's bit is set, that is, whether the page is taken. */
  predicate Taken(bits: seq<bv8>, page: int)
    requires |bits| == MAX_PAGES / 8 && 0 <= page < MAX_PAGES
  {
    Bit(bits[page / 8], page % 8)
  }

  ghost function FreeSet(bits: seq<bv8>): (s: set<int>)
    requires |bits| == MAX_PAGES / 8
    ensures forall p :: p in s <==> 0 <= p < MAX_PAGES && !Taken(bits, p)
  {
    set p | 0 <= p < MAX_PAGES && !Taken(bits, p)
  }

  lemma SetTaken(bits: seq<bv8>, page: int, q: int)
    requires |bits| == MAX_PAGES / 8 && 0 <= page < MAX_PAGES && 0 <= q < MAX_PAGES
    ensures Taken(bits[page / 8 := bits[page / 8] | Mask(page % 8)], q) <==> q == page || Taken(bits, q)
  {
    hide Bit, Mask;
    SetOneBit(bits[page / 8], page % 8, q % 8);
    assert page == page / 8 * 8 + page % 8 && q == q / 8 * 8 + q % 8;
  }

  lemma ClearTaken(bits: seq<bv8>, page: int, q: int)
    requires |bits| == MAX_PAGES / 8 && 0 <= page < MAX_PAGES && 0 <= q < MAX_PAGES
    ensures Taken(bits[page / 8 := bits[page / 8] & !Mask(page % 8)], q) <==> q != page && Taken(bits, q)
  {
    hide Bit, Mask;
    ClearOneBit(bits[page / 8], page % 8, q % 8);
    assert page == page / 8 * 8 + page % 8 && q == q / 8 * 8 + q % 8;
  }

  // ---------------------------------------------------------------------------------------
  // Memory map
  // ---------------------------------------------------------------------------------------

  /** One entry of the boot loader's memory map (section 3.6.8 of the Multiboot2 specification). */
  datatype Region = Region(addr: nat, len: nat, kind: int)

  ghost function Span(a: int, b: int): (s: set<int>)
    ensures forall p :: p in s <==> a <= p < b && 0 <= p
  {
    if a >= b || b < 0 then {} else if a <= 0 then Below(b) else Below(b) - Below(a)
  }

  lemma SpanCard(a: nat, b: nat)
    ensures |Span(a, b)| == if a < b then b - a else 0
  {
    if 0 < a < b {
      assert Below(a) <= Below(b);
    }
  }

  function FirstPage(r: Region): nat {
    r.addr / PAGE_SIZE
  }

  function LastPage(r: Region): nat {
    Min((r.addr + r.len) % WORD64 / PAGE_SIZE, MAX_PAGES)
  }

  /** The pages an available region covers, as the kernel rounds them. */
  ghost function PagesOf(r: Region): set<int> {
    if r.kind == 1 then Span(FirstPage(r), LastPage(r)) else {}
  }

  ghost function Covered(rs: seq<Region>): set<int> {
    if rs == [] then {} else Covered(DropLast(rs)) + PagesOf(Last(rs))
  }

  ghost function Counted(rs: seq<Region>): nat {
    if rs == [] then 0 else Counted(DropLast(rs)) + |PagesOf(Last(rs))|
  }

  ghost predicate Disjoint(rs: seq<Region>) {
    forall i, j :: 0 <= i < j < |rs| ==> PagesOf(rs[i]) !! PagesOf(rs[j])
  }

  lemma {:induction false} CoveredHas(rs: seq<Region>, p: int)
    ensures p in Covered(rs) <==> exists i :: 0 <= i < |rs| && p in PagesOf(rs[i])
  {
    hide PagesOf;
    if rs != [] {
      CoveredHas(DropLast(rs), p);
      if p in Covered(DropLast(rs)) {
        var i :| 0 <= i < |rs| - 1 && p in PagesOf(DropLast(rs)[i]);
        assert p in PagesOf(rs[i]);
      }
    }
  }

  lemma UnionCard(a: set<int>, b: set<int>)
    ensures |a + b| + |a * b| == |a| + |b|
  {
  }

  /** Counting page by page is exact if and only if no page is covered twice. */
  lemma {:induction false} CountIsExact(rs: seq<Region>)
    ensures Counted(rs) >= |Covered(rs)|
    ensures Counted(rs) == |Covered(rs)| <==> Disjoint(rs)
  {
    if rs != [] {
      var r, last := DropLast(rs), PagesOf(Last(rs));
      CountIsExact(r);
      UnionCard(Covered(r), last);
      assert |Covered(r) * last| == 0 <==> Covered(r) !! last by {
        if |Covered(r) * last| == 0 { assert Covered(r) * last == {}; }
      }
      DisjointSnoc(rs);
    }
  }

  /** A page the memory map lists twice is counted twice. */
  lemma TwiceIsTwo()
    ensures var r := Region(0x10_0000, PAGE_SIZE, 1); Counted([r, r]) != |Covered([r, r])|
  {
    hide Counted, Covered;
    var r := Region(0x10_0000, PAGE_SIZE, 1);
    RegionPages(r);
    assert 256 in PagesOf([r, r][0]) && 256 in PagesOf([r, r][1]);
    CountIsExact([r, r]);
  }

  lemma DisjointSnoc(rs: seq<Region>)
    requires rs != []
    ensures Disjoint(rs) <==> Disjoint(DropLast(rs)) && Covered(DropLast(rs)) !! PagesOf(Last(rs))
  {
    hide PagesOf;
    var r := DropLast(rs);
    if Disjoint(rs) {
      forall p | p in Covered(r) ensures p !in PagesOf(Last(rs)) {
        CoveredHas(r, p);
        var i :| 0 <= i < |r| && p in PagesOf(r[i]);
        assert PagesOf(rs[i]) !! PagesOf(rs[|rs| - 1]);
      }
      forall i, j | 0 <= i < j < |r| ensures PagesOf(r[i]) !! PagesOf(r[j]) {
        assert PagesOf(rs[i]) !! PagesOf(rs[j]);
      }
    }
    if Disjoint(r) && Covered(r) !! PagesOf(Last(rs)) {
      forall i, j | 0 <= i < j < |rs| ensures PagesOf(rs[i]) !! PagesOf(rs[j]) {
        if j == |rs| - 1 {
          forall p | p in PagesOf(rs[i]) ensures p !in PagesOf(rs[j]) {
            assert p in PagesOf(r[i]);
            CoveredHas(r, p);
          }
        } else {
          assert PagesOf(r[i]) !! PagesOf(r[j]);
        }
      }
    }
  }

  /** Regions that do not overlap in bytes do not overlap in pages either, because the kernel
      rounds both ends down. */
  lemma ApartInBytes(a: Region, b: Region)
    requires a.addr + a.len <= b.addr && a.addr + a.len < WORD64
    ensures PagesOf(a) !! PagesOf(b)
  {
    hide Span;
    assert (a.addr + a.len) % WORD64 == a.addr + a.len;
    PageOrder(a.addr + a.len, b.addr);
    assert LastPage(a) <= FirstPage(b);
  }

  /** The pages taken for a region lie wholly inside it exactly when the region starts on a page
      boundary: the kernel rounds the start down, so an unaligned one takes in bytes before it. */
  lemma WholePages(r: Region)
    requires r.kind == 1 && r.addr + r.len < WORD64
    ensures (forall p :: p in PagesOf(r) ==> r.addr <= p * PAGE_SIZE && (p + 1) * PAGE_SIZE <= r.addr + r.len)
            <==> r.addr % PAGE_SIZE == 0 || FirstPage(r) >= LastPage(r)
  {
    hide Span, Below;
    var first, last := FirstPage(r), LastPage(r);
    assert r.addr == first * PAGE_SIZE + r.addr % PAGE_SIZE;
    if first < last {
      assert first in PagesOf(r);
    }
    forall p | p in PagesOf(r) ensures (p + 1) * PAGE_SIZE <= r.addr + r.len && first * PAGE_SIZE <= p * PAGE_SIZE {
      PageFits(p, r.addr + r.len);
    }
  }

  /** A region at address 1 makes page 0 available, with a byte that is not its own. */
  lemma UnalignedPage()
    ensures var r := Region(1, PAGE_SIZE, 1); 0 in PagesOf(r) && 0 * PAGE_SIZE < r.addr
  {
  }

  /** The pages of an available region are exactly those below 4 GiB that end inside it and do not
      end before it starts. */
  lemma PagesExactly(r: Region, p: int)
    ensures p in PagesOf(r)
            <==> && r.kind == 1 && 0 <= p < 0x10_0000
                 && r.addr < (p + 1) * 4096 && (p + 1) * 4096 <= (r.addr + r.len) % 0x1_0000_0000_0000_0000
  {
    hide Below;
    RegionPages(r);
    PageRounds(p, r.addr);
    PageRounds(p, (r.addr + r.len) % WORD64);
  }

  lemma PageRounds(p: int, x: nat)
    ensures x / 4096 <= p <==> x < (p + 1) * 4096
    ensures p < x / 4096 <==> (p + 1) * 4096 <= x
  {
  }

  /** After boot a page is free exactly when some available region of the memory map covers it, it
      lies beyond the first MiB, and it does not touch the kernel image. */
  lemma FreeAtBoot(regions: seq<Region>, kernelStart: nat, kernelEnd: nat, p: int)
    ensures p in AtBoot(regions, kernelStart, kernelEnd)
            <==> && (exists i :: 0 <= i < |regions| && p in PagesOf(regions[i]))
                 && 0x10_0000 <= p * 4096 && !(kernelStart < (p + 1) * 4096 && p * 4096 < kernelEnd)
  {
    hide Span, Below, PagesOf, Covered;
    CoveredHas(regions, p);
    if p in Covered(regions) {
      CoveredBelow(regions);
      PageRounds(p, kernelStart);
      PageCeiling(p, kernelEnd);
    } else {
      assert !(exists i :: 0 <= i < |regions| && p in PagesOf(regions[i]));
    }
  }

  lemma PageCeiling(p: int, x: nat)
    ensures p < (x + 4095) / 4096 <==> p * 4096 < x
  {
  }

  /** What is left of the memory map for allocation. */
  ghost function AtBoot(regions: seq<Region>, kernelStart: nat, kernelEnd: nat): set<int> {
    Covered(regions) - Span(0, 256) - Span(kernelStart / PAGE_SIZE, (kernelEnd + 4095) / PAGE_SIZE)
  }

  lemma PageFits(p: int, x: nat)
    requires 0 <= p < x / PAGE_SIZE
    ensures (p + 1) * PAGE_SIZE <= x
  {
  }

  lemma PageAddress(page: nat)
    ensures page * PAGE_SIZE / PAGE_SIZE == page && (page * PAGE_SIZE == 0 <==> page == 0)
  {
  }

  lemma PageOrder(x: nat, y: nat)
    requires x <= y
    ensures x / PAGE_SIZE <= y / PAGE_SIZE
  {
  }

  // ---------------------------------------------------------------------------------------
  // The allocator
  // ---------------------------------------------------------------------------------------

  class Pmm {
    const bitmap: array<bv8>
    var totalPages: nat
    var freePages: nat

    /** Pages handed out and not returned, and all pages there ever were to hand out. */
    ghost var held: set<int>
    ghost const usable: set<int>

    ghost predicate Valid()
      reads this, bitmap
    {
      bitmap.Length == 0x2_0000 && freePages >= |Free()|
    }

    ghost function Free(): set<int>
      reads bitmap
      requires bitmap.Length == MAX_PAGES / 8
    {
      FreeSet(bitmap[..])
    }

    /** By how much the counter exceeds the number of clear bits; no operation changes it. */
    ghost function Excess(): int
      reads this, bitmap
      requires bitmap.Length == MAX_PAGES / 8
    {
      freePages - |Free()|
    }

    method TestBit(page: nat) returns (b: bool)
      requires bitmap.Length == MAX_PAGES / 8 && page < MAX_PAGES
      ensures b <==> page !in Free()
    {
      b := bitmap[page / 8] & Mask(page % 8) != 0;
      assert b <==> Taken(bitmap[..], page);
    }

    method SetBit(page: nat)
      requires bitmap.Length == MAX_PAGES / 8 && page < MAX_PAGES
      modifies bitmap
      ensures Free() == old(Free()) - {page}
    {
      ghost var bits := bitmap[..];
      bitmap[page / 8] := bitmap[page / 8] | Mask(page % 8);
      assert bitmap[..] == bits[page / 8 := bitmap[page / 8]];
      forall q | 0 <= q < MAX_PAGES ensures Taken(bitmap[..], q) <==> q == page || Taken(bits, q) {
        SetTaken(bits, page, q);
      }
    }

    method ClearBit(page: nat)
      requires bitmap.Length == MAX_PAGES / 8 && page < MAX_PAGES
      modifies bitmap
      ensures Free() == old(Free()) + {page}
    {
      ghost var bits := bitmap[..];
      bitmap[page / 8] := bitmap[page / 8] & !Mask(page % 8);
      assert bitmap[..] == bits[page / 8 := bitmap[page / 8]];
      forall q | 0 <= q < MAX_PAGES ensures Taken(bitmap[..], q) <==> q != page && Taken(bits, q) {
        ClearTaken(bits, page, q);
      }
    }

    /** Take one page if it is free. The counter's guard against going below zero never fires. */
    method TakePage(page: nat) returns (taken: bool)
      requires Valid() && page < MAX_PAGES
      modifies this`freePages, bitmap
      ensures Valid() && Excess() == old(Excess()) && Free() == old(Free()) - {page}
      ensures taken <==> page in old(Free())
    {
      hide FreeSet;
      var set' := TestBit(page);
      if !set' {
        ghost var before := Free();
        SetBit(page);
        assert before == Free() + {page};
        if freePages != 0 {
          freePages := freePages - 1;
        }
      } else {
        assert Free() == Free() - {page};
      }
      return !set';
    }

    /** Take every page that touches the byte range. */
    method ReserveRange(start: nat, end: nat)
      requires Valid() && end + 4095 < WORD64
      modifies this`freePages, bitmap
      ensures Valid() && Excess() == old(Excess())
      ensures Free() == old(Free()) - Span(start / PAGE_SIZE, (end + 4095) / PAGE_SIZE)
    {
      hide FreeSet, Span, Below;
      var first, last := start / PAGE_SIZE, (end + 4095) / PAGE_SIZE;
      ghost var before, excess := Free(), Excess();
      FreeBelow(bitmap[..]);
      TakeRange(first, last);
      SpanLimit(before, first, last);
    }

    /** The loop over the pages of a range, cut at the end of the bitmap. */
    method TakeRange(first: nat, last: nat)
      requires Valid()
      modifies this`freePages, bitmap
      ensures Valid() && Excess() == old(Excess())
      ensures Free() == old(Free()) - Span(first, Min(last, MAX_PAGES))
    {
      hide FreeSet, Span, Below;
      var page := first;
      ghost var before := Free();
      SpanNone(before, first);
      if Min(last, MAX_PAGES) <= first {
        SpanNothing(before, first, Min(last, MAX_PAGES));
      }
      while page < last && page < MAX_PAGES
        invariant first <= page && (page == first || (page <= last && page <= MAX_PAGES))
        invariant Valid() && Excess() == old(Excess()) && Free() == before - Span(first, page)
        decreases MAX_PAGES - page
      {
        SpanStep(before, first, page);
        var _ := TakePage(page);
        page := page + 1;
      }
    }

    /** Clear the pages of one available region, counting each. */
    method ReleaseRange(first: nat, last: nat)
      requires bitmap.Length == MAX_PAGES / 8 && last <= MAX_PAGES
      modifies this`freePages, this`totalPages, bitmap
      ensures Free() == old(Free()) + Span(first, last)
      ensures freePages == old(freePages) + |Span(first, last)| && totalPages == old(totalPages) + |Span(first, last)|
    {
      hide FreeSet, Span;
      var page := first;
      SpanCard(first, last);
      while page < last
        invariant first <= page && (page <= last || page == first)
        invariant Free() == old(Free()) + Span(first, page)
        invariant freePages == old(freePages) + page - first && totalPages == old(totalPages) + page - first
      {
        ClearBit(page);
        assert Span(first, page + 1) == Span(first, page) + {page};
        totalPages := totalPages + 1;
        freePages := freePages + 1;
        page := page + 1;
      }
      assert Span(first, last) == Span(first, page);
    }

    /** `pmm_init` over the memory map. */
    constructor (regions: seq<Region>, kernelStart: nat, kernelEnd: nat)
      requires kernelEnd + 4095 < WORD64
      ensures Valid() && Owned() && held == {} && Free() == usable == AtBoot(regions, kernelStart, kernelEnd)
      ensures totalPages == Counted(regions) && Excess() == Counted(regions) - |Covered(regions)|
    {
      hide FreeSet, Span, Shared, Covered, Counted, Below;
      usable := Covered(regions) - Span(0, 256) - Span(kernelStart / PAGE_SIZE, (kernelEnd + 4095) / PAGE_SIZE);
      held := {};
      bitmap := new bv8[MAX_PAGES / 8](_ => 0xFF);
      totalPages, freePages := 0, 0;
      new;
      AllTaken(bitmap[..]);
      Setup(regions, kernelStart, kernelEnd);
      SharedAtBoot(regions, Span(kernelStart / PAGE_SIZE, (kernelEnd + 4095) / PAGE_SIZE));
    }

    method Setup(regions: seq<Region>, kernelStart: nat, kernelEnd: nat)
      requires kernelEnd + 4095 < WORD64
      requires bitmap.Length == MAX_PAGES / 8 && Free() == {} && freePages == totalPages == 0
      modifies this`freePages, this`totalPages, bitmap
      ensures Valid()
      ensures Free()
              == Covered(regions) - Span(0, 256) - Span(kernelStart / PAGE_SIZE, (kernelEnd + 4095) / PAGE_SIZE)
      ensures totalPages == Counted(regions) && Excess() == Counted(regions) - |Covered(regions)|
    {
      hide FreeSet, Span, Covered, Counted, Below;
      ReleaseRegions(regions);
      CountIsExact(regions);
      ReserveRange(0, 0x10_0000);
      FirstMegabyte();
      ReserveRange(kernelStart, kernelEnd);
    }

    /** The loop over the memory map entries. */
    method ReleaseRegions(regions: seq<Region>)
      requires bitmap.Length == MAX_PAGES / 8 && Free() == {} && freePages == totalPages == 0
      modifies this`freePages, this`totalPages, bitmap
      ensures Free() == Covered(regions) && freePages == Counted(regions) == totalPages
    {
      hide FreeSet, Span, PagesOf;
      var i := 0;
      assert regions[..0] == [];
      while i < |regions|
        invariant 0 <= i <= |regions|
        invariant Free() == Covered(regions[..i])
        invariant freePages == Counted(regions[..i]) == totalPages
      {
        assert DropLast(regions[..i + 1]) == regions[..i];
        RegionPages(regions[i]);
        if regions[i].kind == 1 {
          ReleaseRange(FirstPage(regions[i]), LastPage(regions[i]));
        }
        i := i + 1;
      }
      assert regions[..i] == regions;
    }

    ghost function View(): Ledger
      reads this, bitmap
      requires bitmap.Length == MAX_PAGES / 8
    {
      Ledger(Free(), held, freePages)
    }

    /** Free and handed-out pages are the usable ones, and never the same. */
    ghost predicate Owned()
      reads this, bitmap
    {
      bitmap.Length == MAX_PAGES / 8 && Shared(Free(), held, usable)
    }

    /** The lowest free page's address, or 0 exactly when no page is free. */
    method AllocPage() returns (physical: nat)
      requires Valid() && Owned()
      modifies this`freePages, this`held, bitmap
      ensures Valid() && Owned() && Excess() == old(Excess())
      ensures View() == Serve(old(View()), Get)
      ensures physical == 0 <==> old(Free()) == {}
      ensures physical != 0 ==>
                var page := physical / PAGE_SIZE;
                && physical == page * PAGE_SIZE && page in usable && page !in old(held)
                && page == FirstFree(old(Free()), 0)
    {
      hide FreeSet, Shared, Below;
      ghost var before := Free();
      var page := FindFree();
      FirstFreeIs(before, 0, page);
      if page == MAX_PAGES {
        return 0;
      }
      SharedGet(before, held, usable, page);
      PageAddress(page);
      var _ := TakePage(page);
      held := held + {page};
      return page * PAGE_SIZE;
    }

    method FindFree() returns (page: nat)
      requires bitmap.Length == MAX_PAGES / 8
      ensures page <= MAX_PAGES && forall q :: q in Free() ==> page <= q
      ensures if page == MAX_PAGES then Free() == {} else page in Free()
    {
      hide FreeSet, Below;
      page := 0;
      ghost var free := Free();
      FreeBelow(bitmap[..]);
      while page < MAX_PAGES
        invariant page <= MAX_PAGES && free == Free()
        invariant forall q :: 0 <= q < page ==> q !in free
      {
        var set' := TestBit(page);
        if !set' {
          return;
        }
        page := page + 1;
      }
      NoneFree(free);
    }

    /** Any taken page below the limit is freed; ownership survives if the caller held it. */
    method FreePage(physical: nat)
      requires Valid()
      modifies this`freePages, this`held, bitmap
      ensures Valid() && Excess() == old(Excess())
      ensures View() == Serve(old(View()), Put(physical / PAGE_SIZE))
      ensures old(Owned()) ==>
                var page := physical / PAGE_SIZE;
                (Owned() <==> page in old(held) || page in old(Free()) || page >= MAX_PAGES)
    {
      hide FreeSet, Shared;
      var page := physical / PAGE_SIZE;
      ghost var before := Free();
      if Owned() {
        PutKeepsShared(View(), usable, page);
      }
      if page < MAX_PAGES {
        var set' := TestBit(page);
        if set' {
          ClearBit(page);
          freePages := freePages + 1;
        } else {
          assert before + {page} == before;
        }
      }
      held := held - {page};
    }
  }

  ghost predicate Shared(free: set<int>, held: set<int>, usable: set<int>) {
    free + held == usable && free !! held && forall p :: p in usable ==> 0 < p < MAX_PAGES
  }

  lemma FirstMegabyte()
    ensures Span(0 / PAGE_SIZE, (0x10_0000 + 4095) / PAGE_SIZE) == Span(0, 256)
  {
  }

  lemma SharedGet(free: set<int>, held: set<int>, usable: set<int>, p: int)
    requires Shared(free, held, usable) && p in free
    ensures Shared(free - {p}, held + {p}, usable) && p in usable && p !in held && 0 < p
  {
  }

  lemma SharedPut(free: set<int>, held: set<int>, usable: set<int>, p: int)
    requires Shared(free, held, usable) && p in held
    ensures Shared(free + {p}, held - {p}, usable) && p < MAX_PAGES && p !in free
  {
  }

  lemma SharedAtBoot(regions: seq<Region>, kernel: set<int>)
    ensures var usable := Covered(regions) - Span(0, 256) - kernel; Shared(usable, {}, usable)
  {
    CoveredBelow(regions);
  }

  lemma {:induction false} CoveredBelow(rs: seq<Region>)
    ensures forall p :: p in Covered(rs) ==> 0 <= p < MAX_PAGES
  {
    if rs != [] {
      CoveredBelow(DropLast(rs));
      RegionPages(Last(rs));
    }
  }

  lemma AllTaken(bits: seq<bv8>)
    requires |bits| == MAX_PAGES / 8 && forall i :: 0 <= i < |bits| ==> bits[i] == 0xFF
    ensures FreeSet(bits) == {}
  {
    forall p | 0 <= p < MAX_PAGES ensures Taken(bits, p) {
      FullByte(p % 8);
    }
  }

  lemma FullByte(k: nat)
    requires k < 8
    ensures Bit(0xFF, k)
  {
  }

  lemma NoneFree(free: set<int>)
    requires free <= Below(MAX_PAGES) && forall q :: 0 <= q < MAX_PAGES ==> q !in free
    ensures free == {}
  {
    hide Below;
  }

  lemma RegionPages(r: Region)
    ensures PagesOf(r) == if r.kind == 1 then Span(FirstPage(r), LastPage(r)) else {}
    ensures LastPage(r) <= MAX_PAGES
  {
  }

  // ---------------------------------------------------------------------------------------
  // Runs of requests
  // ---------------------------------------------------------------------------------------

  /** What the allocator's state amounts to: free pages, handed-out pages, and the counter. */
  datatype Ledger = Ledger(free: set<int>, held: set<int>, count: int)

  datatype Request = Get | Put(page: nat)

  /** The scan from page `p` up; `MAX_PAGES` when nothing is free. */
  ghost function FirstFree(s: set<int>, p: nat): (r: nat)
    requires p <= MAX_PAGES
    ensures p <= r <= MAX_PAGES && (r < MAX_PAGES ==> r in s)
    ensures forall q :: p <= q < r ==> q !in s
    decreases MAX_PAGES - p
  {
    if p == MAX_PAGES || p in s then p else FirstFree(s, p + 1)
  }

  lemma FirstFreeIs(s: set<int>, p: nat, r: nat)
    requires p <= r <= MAX_PAGES && (r < MAX_PAGES ==> r in s) && forall q :: p <= q < r ==> q !in s
    ensures FirstFree(s, p) == r
  {
  }

  /** A request takes the lowest free page, if any, or returns a page, taken or not. */
  ghost function Serve(l: Ledger, r: Request): Ledger {
    match r
    case Get =>
      var p := FirstFree(l.free, 0);
      if p == MAX_PAGES then l else Ledger(l.free - {p}, l.held + {p}, l.count - 1)
    case Put(p) =>
      if p < MAX_PAGES && p !in l.free then Ledger(l.free + {p}, l.held - {p}, l.count + 1)
      else l.(held := l.held - {p})
  }

  ghost function ServeAll(l: Ledger, rs: seq<Request>): Ledger
    decreases |rs|
  {
    if rs == [] then l else ServeAll(Serve(l, rs[0]), rs[1..])
  }

  /** The pages handed out during a run. */
  ghost function Given(l: Ledger, rs: seq<Request>): seq<int>
    decreases |rs|
  {
    if rs == [] then []
    else
      var p := FirstFree(l.free, 0);
      (if rs[0].Get? && p < MAX_PAGES then [p] else []) + Given(Serve(l, rs[0]), rs[1..])
  }

  /** Clients return only pages they hold. */
  ghost predicate Honest(l: Ledger, rs: seq<Request>)
    decreases |rs|
  {
    rs == [] || ((rs[0].Put? ==> rs[0].page in l.held) && Honest(Serve(l, rs[0]), rs[1..]))
  }

  /** Free and held pages partition the usable ones, and the counter counts the free ones. */
  ghost predicate Sound(l: Ledger, usable: set<int>, excess: int) {
    Shared(l.free, l.held, usable) && l.count == |l.free| + excess
  }

  /** Returning a page keeps the partition exactly when the page is held, or nothing happens. */
  lemma PutKeepsShared(l: Ledger, usable: set<int>, p: nat)
    requires Shared(l.free, l.held, usable)
    ensures var m := Serve(l, Put(p));
            Shared(m.free, m.held, usable) <==> p in l.held || p in l.free || p >= MAX_PAGES
  {
    var m := Serve(l, Put(p));
    if p in l.held {
      assert m.free + m.held == l.free + l.held;
    } else if p < MAX_PAGES && p !in l.free {
      assert p in m.free + m.held && p !in usable;
    } else {
      assert m == l;
    }
  }

  /** Freeing a page nobody was given makes it available. */
  lemma StrayPut()
    ensures var l := Ledger({}, {}, 0); Shared(l.free, l.held, {}) && 1 in Serve(l, Put(1)).free
  {
  }

  lemma ServeKeepsSound(l: Ledger, usable: set<int>, excess: int, r: Request)
    requires Sound(l, usable, excess) && (r.Put? ==> r.page in l.held)
    ensures Sound(Serve(l, r), usable, excess)
    ensures var p := FirstFree(l.free, 0);
            r.Get? && p < MAX_PAGES ==> p in usable && p !in l.held && l.count > excess
  {
    hide FirstFree, Shared;
    match r {
      case Get =>
        var p := FirstFree(l.free, 0);
        if p < MAX_PAGES {
          assert l.free == l.free - {p} + {p};
          SharedGet(l.free, l.held, usable, p);
        }
      case Put(p) =>
        SharedPut(l.free, l.held, usable, p);
    }
  }

  /** Over every honest run: free and held pages partition the usable ones, the counter follows
      the free ones, and only usable pages are handed out. */
  lemma {:induction false} PagesConserved(l: Ledger, rs: seq<Request>, usable: set<int>, excess: int)
    requires Sound(l, usable, excess) && Honest(l, rs)
    ensures Sound(ServeAll(l, rs), usable, excess)
    ensures forall i :: 0 <= i < |Given(l, rs)| ==> Given(l, rs)[i] in usable
    decreases |rs|
  {
    hide Sound, FirstFree;
    if rs != [] {
      ServeKeepsSound(l, usable, excess, rs[0]);
      PagesConserved(Serve(l, rs[0]), rs[1..], usable, excess);
    }
  }

  /** A page that is held is not handed out again before it is put back. */
  lemma {:induction false} NeverTwice(l: Ledger, rs: seq<Request>, usable: set<int>, excess: int, p: int)
    requires Sound(l, usable, excess) && Honest(l, rs) && p in l.held && forall i :: 0 <= i < |rs| ==> rs[i] != Put(p)
    ensures p in ServeAll(l, rs).held && p !in Given(l, rs)
    decreases |rs|
  {
    hide Sound, FirstFree;
    if rs != [] {
      ServeKeepsSound(l, usable, excess, rs[0]);
      NeverTwice(Serve(l, rs[0]), rs[1..], usable, excess, p);
    }
  }

  lemma SpanNone(s: set<int>, a: nat)
    ensures s - Span(a, a) == s
  {
  }

  lemma SpanStep(s: set<int>, a: nat, p: nat)
    requires a <= p
    ensures s - Span(a, p) - {p} == s - Span(a, p + 1)
  {
    hide Span, Below;
  }

  lemma SpanNothing(s: set<int>, a: nat, b: nat)
    requires b <= a
    ensures s - Span(a, b) == s - Span(a, a)
  {
    hide Below;
  }

  lemma SpanLimit(s: set<int>, a: nat, b: nat)
    requires s <= Below(MAX_PAGES)
    ensures s - Span(a, Min(b, MAX_PAGES)) == s - Span(a, b)
  {
    hide Below, Span;
  }

  lemma FreeBelow(bits: seq<bv8>)
    requires |bits| == MAX_PAGES / 8
    ensures FreeSet(bits) <= Below(MAX_PAGES)
  {
  }
}
