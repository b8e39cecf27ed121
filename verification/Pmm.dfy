/**
 The physical page allocator: a byte bitmap in which a set bit means
 "unavailable", a redundant free counter and a high-water mark.

 The bitmap refines the set of free page numbers (`FreePages`); every method
 states its effect on that set.
 */
module Pmm {
  import opened Machine

  const PAGE_SIZE: int := 4096
  const MAX_PAGES: int := 0x10_0000
  const BITMAP_BYTES: int := 0x2_0000

  // ---------------------------------------------------------------- bits

  function Mask(k: nat): bv8
    requires k < 8
  {
    (1 as bv8) << k
  }

  predicate BitSet(b: bv8, k: nat)
    requires k < 8
  {
    b & Mask(k) != 0
  }

  lemma MaskTable(k: nat)
    requires k < 8
    ensures Mask(k) == [1, 2, 4, 8, 16, 32, 64, 128][k]
  {
    assert k == 0 || k == 1 || k == 2 || k == 3 || k == 4 || k == 5 || k == 6 || k == 7;
  }

  lemma SetBitEffect(b: bv8, k: nat, j: nat)
    requires k < 8 && j < 8
    ensures BitSet(b | Mask(k), j) <==> j == k || BitSet(b, j)
  {
    MaskTable(k);
    MaskTable(j);
  }

  lemma ClearBitEffect(b: bv8, k: nat, j: nat)
    requires k < 8 && j < 8
    ensures BitSet(b & !Mask(k), j) <==> j != k && BitSet(b, j)
  {
    MaskTable(k);
    MaskTable(j);
  }

  /** A byte is determined by its eight bits. */
  lemma ByteFromBits(a: bv8, b: bv8)
    requires forall k: nat :: k < 8 ==> (BitSet(a, k) <==> BitSet(b, k))
    ensures a == b
  {
    hide Mask;
    MaskTable(0); MaskTable(1); MaskTable(2); MaskTable(3); MaskTable(4); MaskTable(5); MaskTable(6); MaskTable(7);
    assert BitSet(a, 0) <==> BitSet(b, 0);
    assert BitSet(a, 1) <==> BitSet(b, 1);
    assert BitSet(a, 2) <==> BitSet(b, 2);
    assert BitSet(a, 3) <==> BitSet(b, 3);
    assert BitSet(a, 4) <==> BitSet(b, 4);
    assert BitSet(a, 5) <==> BitSet(b, 5);
    assert BitSet(a, 6) <==> BitSet(b, 6);
    assert BitSet(a, 7) <==> BitSet(b, 7);
  }

  // -------------------------------------------------- the abstract value

  ghost predicate Used(bitmap: seq<bv8>, page: nat)
    requires |bitmap| == BITMAP_BYTES && page < MAX_PAGES
  {
    BitSet(bitmap[page / 8], page % 8)
  }

  ghost function FreePages(bitmap: seq<bv8>): set<nat>
    requires |bitmap| == BITMAP_BYTES
  {
    set p: nat | p < MAX_PAGES && !Used(bitmap, p)
  }

  /** The abstraction loses nothing: the free set determines every byte. */
  lemma BitmapDetermined(a: seq<bv8>, b: seq<bv8>)
    requires |a| == |b| == BITMAP_BYTES
    requires FreePages(a) == FreePages(b)
    ensures a == b
  {
    forall i | 0 <= i < BITMAP_BYTES ensures a[i] == b[i] {
      forall k: nat | k < 8 ensures BitSet(a[i], k) <==> BitSet(b[i], k) {
        var p := 8 * i + k;
        assert p / 8 == i && p % 8 == k;
        assert p in FreePages(a) <==> p in FreePages(b);
      }
      ByteFromBits(a[i], b[i]);
    }
  }

  lemma SetUsedEffect(bitmap: seq<bv8>, page: nat)
    requires |bitmap| == BITMAP_BYTES && page < MAX_PAGES
    ensures FreePages(bitmap[page / 8 := bitmap[page / 8] | Mask(page % 8)]) == FreePages(bitmap) - {page}
  {
    hide BitSet;
    var after := bitmap[page / 8 := bitmap[page / 8] | Mask(page % 8)];
    forall q: nat | q < MAX_PAGES
      ensures Used(after, q) <==> q == page || Used(bitmap, q)
    {
      SetBitEffect(bitmap[page / 8], page % 8, q % 8);
    }
  }

  lemma SetFreeEffect(bitmap: seq<bv8>, page: nat)
    requires |bitmap| == BITMAP_BYTES && page < MAX_PAGES
    ensures FreePages(bitmap[page / 8 := bitmap[page / 8] & !Mask(page % 8)]) == FreePages(bitmap) + {page}
  {
    hide BitSet;
    var after := bitmap[page / 8 := bitmap[page / 8] & !Mask(page % 8)];
    forall q: nat | q < MAX_PAGES
      ensures Used(after, q) <==> q != page && Used(bitmap, q)
    {
      ClearBitEffect(bitmap[page / 8], page % 8, q % 8);
    }
  }

  // -------------------------------------------------------- boot regions

  /** One entry of the multiboot2 memory map. */
  datatype Region = Region(base: Quad, length: Quad, kind: Word)

  /** The multiboot information block: where it lies and the map it holds. */
  datatype BootInfo = BootInfo(address: Word, totalSize: Word, regions: seq<Region>)

  predicate Usable(r: Region) {
    r.kind == 1 && r.length != 0
  }

  predicate Inside(p: nat, start: int, end: int) {
    start <= PAGE_SIZE * p && PAGE_SIZE * (p + 1) <= end
  }

  predicate Touched(p: nat, start: int, end: int) {
    start < PAGE_SIZE * (p + 1) && PAGE_SIZE * p < end
  }

  predicate Between(p: nat, first: int, last: int) {
    first <= p < last
  }

  /** Pages that lie wholly inside [start, end). */
  ghost function PagesInside(start: int, end: int): set<nat> {
    set p: nat | p < MAX_PAGES && Inside(p, start, end)
  }

  /** Pages that [start, end) touches. */
  ghost function PagesTouched(start: int, end: int): set<nat> {
    set p: nat | p < MAX_PAGES && Touched(p, start, end)
  }

  /** Pages numbered first up to last. */
  ghost function PageSpan(first: int, last: int): set<nat> {
    set p: nat | p < MAX_PAGES && Between(p, first, last)
  }

  lemma SpanClosed(first: nat, page: nat, last: nat)
    requires page == if first <= last then last else first
    ensures PageSpan(first, page) == PageSpan(first, last)
  {
  }

  lemma SpanOneMore(first: nat, page: nat)
    requires first <= page < MAX_PAGES
    ensures PageSpan(first, page + 1) == PageSpan(first, page) + {page}
  {
  }

  lemma SpanReserved(s: set<nat>, before: set<nat>, after: set<nat>, first: nat, page: nat)
    requires first <= page < MAX_PAGES && before == s - PageSpan(first, page) && after == before - {page}
    ensures after == s - PageSpan(first, page + 1)
  {
    SpanOneMore(first, page);
  }

  lemma SpanFreed(s: set<nat>, before: set<nat>, after: set<nat>, first: nat, page: nat)
    requires first <= page < MAX_PAGES && before == s + PageSpan(first, page) && after == before + {page}
    ensures after == s + PageSpan(first, page + 1)
  {
    SpanOneMore(first, page);
  }

  lemma SpanBound(first: int, last: int)
    ensures forall p :: p in PageSpan(first, last) ==> p < last
  {
  }

  lemma SpanEmpty(first: nat)
    ensures PageSpan(first, first) == {}
  {
  }

  /** The page interval free_range computes in 64-bit arithmetic. */
  function FirstInside(start: Quad): Quad {
    Wrap64(start + PAGE_SIZE - 1) / PAGE_SIZE
  }

  function LastInside(end: Quad): nat {
    Min(end / PAGE_SIZE, MAX_PAGES)
  }

  /** Pages free_range frees for one usable region. */
  ghost function FreedBy(r: Region): set<nat> {
    PageSpan(FirstInside(r.base), LastInside(Wrap64(r.base + r.length)))
  }

  ghost function FreedByAll(rs: seq<Region>): set<nat> {
    set p: nat, i: nat | i < |rs| && p < MAX_PAGES && Usable(rs[i]) && p in FreedBy(rs[i]) :: p
  }

  function Highest(rs: seq<Region>): (h: nat)
    ensures h <= MAX_PAGES
  {
    if |rs| == 0 then 0
    else
      var before := Highest(rs[..|rs| - 1]);
      var r := rs[|rs| - 1];
      if Usable(r) then
        var last := LastInside(Wrap64(r.base + r.length));
        if last > before then last else before
      else before
  }

  /** 
   The caller-checkable condition under which the 64-bit arithmetic of
   free_range frees exactly the pages inside the region: no sum wraps, or
   the wrapped interval happens to be empty as it should be.
   */
  predicate RegionExact(r: Region) {
    if r.base + PAGE_SIZE - 1 < 0x1_0000_0000_0000_0000 then
      r.base + r.length < 0x1_0000_0000_0000_0000 || r.base > PAGE_SIZE * (MAX_PAGES - 1)
    else
      Wrap64(r.base + r.length) < PAGE_SIZE
  }

  /** Exactly the regions meeting RegionExact are freed as intended. */
  lemma RegionFreedExactly(r: Region)
    ensures FreedBy(r) == PagesInside(r.base, r.base + r.length) <==> RegionExact(r)
  {
    hide PageSpan, PagesInside;
    if r.base + PAGE_SIZE - 1 >= 0x1_0000_0000_0000_0000 {
      BaseWraps(r);
    } else if r.base + r.length >= 0x1_0000_0000_0000_0000 {
      EndWraps(r);
    } else {
      NothingWraps(r);
    }
  }

  lemma BaseWraps(r: Region)
    requires r.base + PAGE_SIZE - 1 >= 0x1_0000_0000_0000_0000
    ensures FreedBy(r) == PagesInside(r.base, r.base + r.length) <==> Wrap64(r.base + r.length) < PAGE_SIZE
  {
    var last := LastInside(Wrap64(r.base + r.length));
    assert FirstInside(r.base) == 0;
    assert PagesInside(r.base, r.base + r.length) == {};
    hide PagesInside;
    if last > 0 {
      var zero: nat := 0;
      assert Between(zero, 0, last) && zero in FreedBy(r);
    } else {
      SpanEmpty(0);
    }
  }

  lemma EndWraps(r: Region)
    requires r.base + PAGE_SIZE - 1 < 0x1_0000_0000_0000_0000 <= r.base + r.length
    ensures FreedBy(r) == PagesInside(r.base, r.base + r.length) <==> r.base > PAGE_SIZE * (MAX_PAGES - 1)
  {
    var end := Wrap64(r.base + r.length);
    var inside, top: nat := PagesInside(r.base, r.base + r.length), MAX_PAGES - 1;
    assert end == r.base + r.length - 0x1_0000_0000_0000_0000 < r.base;
    assert LastInside(end) <= FirstInside(r.base);
    assert FreedBy(r) == {};
    if r.base <= PAGE_SIZE * top {
      assert Inside(top, r.base, r.base + r.length) && top in inside;
    } else {
      assert inside == {};
    }
  }

  lemma NothingWraps(r: Region)
    requires r.base + PAGE_SIZE - 1 < 0x1_0000_0000_0000_0000 && r.base + r.length < 0x1_0000_0000_0000_0000
    ensures FreedBy(r) == PagesInside(r.base, r.base + r.length)
  {
    var end := r.base + r.length;
    forall p: nat | p < MAX_PAGES
      ensures Between(p, FirstInside(r.base), LastInside(end)) <==> Inside(p, r.base, end)
    {
      InsideIsBetween(p, r.base, end);
    }
  }

  lemma InsideIsBetween(p: nat, start: nat, end: nat)
    requires p < MAX_PAGES
    ensures Inside(p, start, end) <==> Between(p, (start + PAGE_SIZE - 1) / PAGE_SIZE, Min(end / PAGE_SIZE, MAX_PAGES))
  {
  }

  lemma TouchedIsBetween(p: nat, start: nat, end: nat)
    requires p < MAX_PAGES
    ensures Touched(p, start, end) <==> Between(p, start / PAGE_SIZE, Min((end + PAGE_SIZE - 1) / PAGE_SIZE, MAX_PAGES))
  {
  }

  lemma TouchedIsSpan(start: Quad, end: Quad, first: nat, last: nat)
    requires first == start / PAGE_SIZE && last == Min((end + PAGE_SIZE - 1) / PAGE_SIZE, MAX_PAGES)
    ensures PagesTouched(start, end) == PageSpan(first, last)
  {
    forall p: nat | p < MAX_PAGES ensures Touched(p, start, end) <==> Between(p, first, last) {
      TouchedIsBetween(p, start, end);
    }
  }

  lemma NothingTouchedAbove(start: Quad, end: Quad)
    requires start / PAGE_SIZE >= MAX_PAGES
    ensures PagesTouched(start, end) == {}
  {
  }

  /** A region near the top of the 64-bit space frees all of memory. */
  lemma WrappingRegionFreesEverything()
    ensures var r := Region(0xffff_ffff_ffff_ff9c, 50, 1);
            PagesInside(r.base, r.base + r.length) == {} && FreedBy(r) == PageSpan(0, MAX_PAGES)
  {
    var r := Region(0xffff_ffff_ffff_ff9c, 50, 1);
    assert PagesInside(r.base, r.base + r.length) == {};
    assert FirstInside(r.base) == 0 && LastInside(Wrap64(r.base + r.length)) == MAX_PAGES;
  }

  // ------------------------------------------------ what start-up leaves

  /** Free pages once pmm_init has run, as computed. */
  ghost function BootFree(info: BootInfo, kernelEnd: Word): set<nat> {
    MapFree(info) - PagesTouched(0, 0x1000) - PagesTouched(0, kernelEnd)
  }

  ghost function MapFree(info: BootInfo): set<nat> {
    if Highest(Map(info)) == 0 then PagesInside(0x10_0000, 0x100_0000)
    else FreedByAll(Map(info)) - PagesTouched(info.address, info.address + info.totalSize)
  }

  function Map(info: BootInfo): seq<Region> {
    if info.address == 0 then [] else info.regions
  }

  function BootHighest(info: BootInfo): nat {
    if Highest(Map(info)) == 0 then 4096 else Highest(Map(info))
  }

  /** Some usable region reaches past the first page. */
  predicate HasUsableMap(info: BootInfo) {
    info.address != 0 && exists i :: 0 <= i < |info.regions| && Usable(info.regions[i])
                                     && Wrap64(info.regions[i].base + info.regions[i].length) >= PAGE_SIZE
  }

  lemma {:induction false} HighestIsZero(rs: seq<Region>)
    ensures Highest(rs) == 0 <==> forall i :: 0 <= i < |rs| && Usable(rs[i]) ==>
              Wrap64(rs[i].base + rs[i].length) < PAGE_SIZE
  {
    if |rs| > 0 {
      var init := rs[..|rs| - 1];
      HighestIsZero(init);
      forall i | 0 <= i < |init| ensures init[i] == rs[i] {}
      if Highest(rs) == 0 {
        forall i | 0 <= i < |rs| && Usable(rs[i]) ensures Wrap64(rs[i].base + rs[i].length) < PAGE_SIZE {
          if i < |init| { assert init[i] == rs[i]; }
        }
      }
    }
  }

  lemma {:induction false} HighestBounds(rs: seq<Region>, p: nat)
    requires p in FreedByAll(rs)
    ensures p < Highest(rs)
  {
    var i: nat :| i < |rs| && p < MAX_PAGES && Usable(rs[i]) && p in FreedBy(rs[i]);
    if i < |rs| - 1 {
      var init := rs[..|rs| - 1];
      assert init[i] == rs[i];
      HighestBounds(init, p);
    }
  }

  /**
   Start-up leaves page p free exactly when it lies wholly inside one usable
   region and is touched neither by [0, max(0x1000, kernel_end)) nor by the
   boot block.  Without a region ending at or above 0x1000 the fixed window
   [1 MiB, 16 MiB) replaces the map, and then the boot block stays free.
   */
  lemma BootFreeExactly(info: BootInfo, kernelEnd: Word, p: nat)
    requires forall r :: r in info.regions && Usable(r) ==> RegionExact(r)
    ensures p in BootFree(info, kernelEnd) <==>
            && p < MAX_PAGES
            && !(PAGE_SIZE * p < (if kernelEnd > 0x1000 then kernelEnd else 0x1000))
            && if HasUsableMap(info) then
                 && (exists r :: r in info.regions && Usable(r)
                                 && r.base <= PAGE_SIZE * p && PAGE_SIZE * (p + 1) <= r.base + r.length)
                 && !(info.address < PAGE_SIZE * (p + 1) && PAGE_SIZE * p < info.address + info.totalSize)
               else 0x10_0000 <= PAGE_SIZE * p && PAGE_SIZE * (p + 1) <= 0x100_0000
  {
    HighestIsZero(Map(info));
    assert HasUsableMap(info) <==> Highest(Map(info)) != 0;
    FreedByMap(Map(info), p);
    hide Highest, FreedByAll, RegionExact, HasUsableMap;
  }

  /** With exact regions the map frees the pages wholly inside a usable one. */
  lemma FreedByMap(rs: seq<Region>, p: nat)
    requires forall r :: r in rs && Usable(r) ==> RegionExact(r)
    ensures p in FreedByAll(rs) <==>
            && p < MAX_PAGES
            && exists r :: r in rs && Usable(r) && r.base <= PAGE_SIZE * p && PAGE_SIZE * (p + 1) <= r.base + r.length
  {
    hide RegionExact, FreedBy;
    forall i: nat | i < |rs| && Usable(rs[i])
      ensures FreedBy(rs[i]) == PagesInside(rs[i].base, rs[i].base + rs[i].length)
    {
      assert rs[i] in rs;
      RegionFreedExactly(rs[i]);
    }
    if p in FreedByAll(rs) {
      var i: nat :| i < |rs| && p < MAX_PAGES && Usable(rs[i]) && p in FreedBy(rs[i]);
      assert rs[i] in rs && p in PagesInside(rs[i].base, rs[i].base + rs[i].length);
    }
    if r :| r in rs && Usable(r) && p in PagesInside(r.base, r.base + r.length) {
      var i: nat :| i < |rs| && rs[i] == r;
      assert p in FreedBy(rs[i]);
    }
  }

  lemma BootFreeBounds(info: BootInfo, kernelEnd: Word)
    ensures BootHighest(info) <= MAX_PAGES
    ensures forall p :: p in BootFree(info, kernelEnd) ==> 1 <= p < BootHighest(info) && PAGE_SIZE * p >= kernelEnd
  {
    var rs := Map(info);
    forall p | p in BootFree(info, kernelEnd) ensures 1 <= p < BootHighest(info) && PAGE_SIZE * p >= kernelEnd {
      assert p !in PagesTouched(0, 0x1000);
      assert p !in PagesTouched(0, kernelEnd);
      if Highest(rs) != 0 {
        HighestBounds(rs, p);
      }
    }
  }

  /** h is the end of the highest page any usable region ends past, in pages, at most 2^20. */
  ghost predicate IsHighest(rs: seq<Region>, h: nat) {
    && (forall i :: 0 <= i < |rs| && Usable(rs[i]) ==> Min(Wrap64(rs[i].base + rs[i].length) / 4096, 0x10_0000) <= h)
    && (h != 0 ==> exists i :: 0 <= i < |rs| && Usable(rs[i])
                               && h == Min(Wrap64(rs[i].base + rs[i].length) / 4096, 0x10_0000))
  }

  lemma {:induction false} HighestIs(rs: seq<Region>)
    ensures IsHighest(rs, Highest(rs))
  {
    hide Wrap64;
    if |rs| > 0 {
      var n := |rs| - 1;
      var init := rs[..n];
      HighestIs(init);
      assert forall i :: 0 <= i < n ==> rs[i] == init[i];
    }
  }

  /** The high-water mark after start-up: where the memory map ends, or 16 MiB without one. */
  lemma BootHighestExactly(info: BootInfo)
    ensures if HasUsableMap(info) then BootHighest(info) != 0 && IsHighest(info.regions, BootHighest(info))
            else BootHighest(info) == 4096
  {
    HighestIs(Map(info));
    HighestIsZero(Map(info));
    hide Highest, Wrap64;
  }

  // -------------------------------------------------------- abstract state

  /** The allocator as a set of free pages and a high-water mark. */
  datatype Pool = Pool(free: set<nat>, highest: nat)

  ghost predicate PoolOk(a: Pool) {
    a.highest <= MAX_PAGES && forall p :: p in a.free ==> 1 <= p < a.highest
  }

  /** The least element of a nonempty set of pages. */
  ghost predicate IsLeast(p: nat, s: set<nat>) {
    p in s && forall q :: q in s ==> p <= q
  }

  lemma {:induction false} LeastExists(s: set<nat>)
    requires s != {}
    ensures exists p: nat :: IsLeast(p, s)
    decreases |s|
  {
    var x :| x in s;
    if s == {x} {
      assert IsLeast(x, s);
    } else {
      assert x !in s - {x} && s - {x} != {};
      LeastExists(s - {x});
      var y: nat :| IsLeast(y, s - {x});
      var least := if x < y then x else y;
      forall q | q in s ensures least <= q {
        assert q == x || q in s - {x};
      }
      assert IsLeast(least, s);
    }
  }

  ghost function Least(s: set<nat>): (p: nat)
    requires s != {}
    ensures IsLeast(p, s)
  {
    LeastExists(s);
    var p: nat :| IsLeast(p, s);
    p
  }

  /** The n lowest pages, lowest first; fewer when there are not as many. */
  ghost function Lowest(s: set<nat>, n: nat): (ps: seq<nat>)
    ensures |ps| == if |s| < n then |s| else n
    ensures forall i :: 0 <= i < |ps| ==> ps[i] in s
  {
    if n == 0 || s == {} then [] else [Least(s)] + Lowest(s - {Least(s)}, n - 1)
  }

  /** ps is increasing, and every page of s left out is above them all. */
  ghost predicate Below(ps: seq<nat>, s: set<nat>) {
    && (forall i, j :: 0 <= i < j < |ps| ==> ps[i] < ps[j])
    && (forall i, x :: 0 <= i < |ps| && x in s && x !in ps ==> ps[i] < x)
  }

  lemma {:induction false} LowestAreLeast(s: set<nat>, n: nat)
    ensures Below(Lowest(s, n), s)
  {
    if n > 0 && s != {} {
      LowestAreLeast(s - {Least(s)}, n - 1);
      PutFirst(s, Least(s), Lowest(s - {Least(s)}, n - 1));
    }
  }

  lemma LowestNext(s: set<nat>, n: nat)
    requires n > 0 && s != {}
    ensures Lowest(s, n) == [Least(s)] + Lowest(s - {Least(s)}, n - 1)
  {
  }

  lemma PutFirst(s: set<nat>, p: nat, more: seq<nat>)
    requires IsLeast(p, s) && Below(more, s - {p}) && forall i :: 0 <= i < |more| ==> more[i] in s - {p}
    ensures Below([p] + more, s)
  {
    var ps := [p] + more;
    forall i, x | 0 <= i < |ps| && x in s && x !in ps ensures ps[i] < x {
      assert ps[0] == p && x in s - {p} && x !in more;
    }
  }

  /** What allocate_page returns and leaves: the lowest free page, or 0. */
  ghost function Allocated(a: Pool): (r: (Pool, Word))
    requires PoolOk(a)
    ensures PoolOk(r.0)
    ensures r.1 == 0 <==> a.free == {}
  {
    if a.free == {} then (a, 0)
    else (a.(free := a.free - {Least(a.free)}), PAGE_SIZE * Least(a.free))
  }

  /** What free_page leaves: out-of-range and already free pages are no-ops. */
  ghost function Released(a: Pool, address: Word): Pool {
    var p := address / PAGE_SIZE;
    if p == 0 || p >= a.highest then a else a.(free := a.free + {p})
  }

  /** An allocation: the page-aligned address of the lowest free page, which is no longer free; 0 when there is none. */
  lemma AllocationMeans(a: Pool)
    requires PoolOk(a)
    ensures var (b, address) := Allocated(a);
            && b.highest == a.highest
            && if a.free == {} then address == 0 && b.free == {}
               else address % 4096 == 0 && IsLeast(address / 4096, a.free) && b.free == a.free - {address / 4096}
  {
    if a.free != {} {
      DivModUnique(PAGE_SIZE * Least(a.free), 4096, Least(a.free), 0);
    }
  }

  /** A release: the page joins the free ones if it is neither page 0 nor at or above the high-water mark. */
  lemma ReleaseMeans(a: Pool, address: Word)
    ensures var b := Released(a, address);
            && b.highest == a.highest
            && b.free == if 1 <= address / 4096 < a.highest then a.free + {address / 4096} else a.free
  {
  }

  /** free_page undoes allocate_page, and freeing twice is freeing once. */
  lemma ReleaseUndoesAllocate(a: Pool)
    requires PoolOk(a)
    ensures var (b, address) := Allocated(a);
            Released(b, address) == a && Released(a, address) == a
  {
    if a.free != {} {
      var p := Least(a.free);
      assert a.free - {p} + {p} == a.free;
      assert a.free + {p} == a.free;
    }
  }

  /** The same on the bytes: freeing the page just allocated restores every bit. */
  lemma FreeRestoresEveryBit(before: seq<bv8>, during: seq<bv8>, after: seq<bv8>, highest: nat)
    requires |before| == |during| == |after| == BITMAP_BYTES
    requires PoolOk(Pool(FreePages(before), highest))
    requires Pool(FreePages(during), highest) == Allocated(Pool(FreePages(before), highest)).0
    requires Pool(FreePages(after), highest)
             == Released(Pool(FreePages(during), highest), Allocated(Pool(FreePages(before), highest)).1)
    ensures after == before
  {
    ReleaseUndoesAllocate(Pool(FreePages(before), highest));
    BitmapDetermined(after, before);
  }

  /** Allocation failure is monotone: once empty, always empty. */
  lemma FailureIsMonotone(a: Pool)
    requires PoolOk(a)
    ensures var (b, address) := Allocated(a);
            (address == 0 ==> b == a) && (address != 0 ==> |b.free| == |a.free| - 1)
  {
  }

  // ------------------------------------------------------------ the class

  class PageAllocator {
    const bitmap: array<bv8>
    var highestPage: Word
    var freeCount: Word

    constructor ()
      ensures fresh(this) && fresh(bitmap) && bitmap.Length == BITMAP_BYTES
    {
      bitmap := new bv8[BITMAP_BYTES](_ => 0);
      highestPage, freeCount := 0, 0;
    }

    ghost function Free(): set<nat>
      requires bitmap.Length == BITMAP_BYTES
      reads this, bitmap
    {
      FreePages(bitmap[..])
    }

    /** The counter counts the clear bits, all below the high-water mark. */
    ghost predicate Counted()
      reads this, bitmap
    {
      && bitmap.Length == BITMAP_BYTES
      && highestPage <= MAX_PAGES
      && freeCount == |Free()|
      && forall p :: p in Free() ==> p < highestPage
    }

    ghost predicate Valid()
      reads this, bitmap
    {
      Counted() && 0 !in Free()
    }

    ghost function View(): (a: Pool)
      requires Valid()
      reads this, bitmap
      ensures PoolOk(a)
    {
      Pool(Free(), highestPage)
    }

    method SetUsed(page: Word)
      requires bitmap.Length == BITMAP_BYTES && page < MAX_PAGES
      modifies bitmap
      ensures Free() == old(Free()) - {page}
    {
      hide FreePages;
      SetUsedEffect(bitmap[..], page);
      bitmap[page / 8] := bitmap[page / 8] | Mask(page % 8);
      assert bitmap[..] == old(bitmap[..])[page / 8 := old(bitmap[..])[page / 8] | Mask(page % 8)];
    }

    method SetFree(page: Word)
      requires bitmap.Length == BITMAP_BYTES && page < MAX_PAGES
      modifies bitmap
      ensures Free() == old(Free()) + {page}
    {
      hide FreePages;
      SetFreeEffect(bitmap[..], page);
      bitmap[page / 8] := bitmap[page / 8] & !Mask(page % 8);
      assert bitmap[..] == old(bitmap[..])[page / 8 := old(bitmap[..])[page / 8] & !Mask(page % 8)];
    }

    method IsUsed(page: Word) returns (used: bool)
      requires bitmap.Length == BITMAP_BYTES && page < MAX_PAGES
      ensures used <==> page !in Free()
    {
      used := bitmap[page / 8] & Mask(page % 8) != 0;
    }

    /** One step of free_range: free the page and count it, if it was used. */
    method FreeOne(page: Word)
      requires bitmap.Length == BITMAP_BYTES && page < MAX_PAGES && freeCount == |Free()|
      modifies this`freeCount, bitmap
      ensures Free() == old(Free()) + {page} && freeCount == |Free()|
    {
      hide FreePages;
      var used := IsUsed(page);
      if used {
        SetFree(page);
        FreeCountBound(bitmap[..]);
        freeCount := Wrap32(freeCount + 1);
      } else {
        assert Free() == old(Free()) + {page as nat};
      }
    }

    /** One step of reserve_range. */
    method ReserveOne(page: Word)
      requires bitmap.Length == BITMAP_BYTES && page < MAX_PAGES && freeCount == |Free()|
      modifies this`freeCount, bitmap
      ensures Free() == old(Free()) - {page} && freeCount == |Free()|
    {
      hide FreePages;
      var used := IsUsed(page);
      if !used {
        ghost var before := Free();
        SetUsed(page);
        assert Free() == before - {page as nat};
        freeCount := Wrap32(freeCount - 1);
      } else {
        assert Free() == old(Free()) - {page as nat};
      }
    }

    /** The loop of free_range. */
    method FreeSpan(first: nat, last: nat)
      requires bitmap.Length == BITMAP_BYTES && last <= MAX_PAGES && freeCount == |Free()|
      modifies this`freeCount, bitmap
      ensures Free() == old(Free()) + PageSpan(first, last) && freeCount == |Free()|
    {
      hide FreePages, PageSpan;
      var page := first;
      SpanEmpty(first);
      while page < last
        invariant first <= page && page == if first <= last then Min(page, last) else first
        invariant Free() == old(Free()) + PageSpan(first, page) && freeCount == |Free()|
      {
        ghost var before := Free();
        FreeOne(page);
        SpanFreed(old(Free()), before, Free(), first, page);
        page := page + 1;
      }
      SpanClosed(first, page, last);
    }

    /** The loop of reserve_range. */
    method ReserveSpan(first: nat, last: nat)
      requires bitmap.Length == BITMAP_BYTES && last <= MAX_PAGES && freeCount == |Free()|
      modifies this`freeCount, bitmap
      ensures Free() == old(Free()) - PageSpan(first, last) && freeCount == |Free()|
    {
      hide FreePages, PageSpan;
      var page := first;
      SpanEmpty(first);
      while page < last
        invariant first <= page && page == if first <= last then Min(page, last) else first
        invariant Free() == old(Free()) - PageSpan(first, page) && freeCount == |Free()|
      {
        ghost var before := Free();
        ReserveOne(page);
        SpanReserved(old(Free()), before, Free(), first, page);
        page := page + 1;
      }
      SpanClosed(first, page, last);
    }

    method FreeRange(start: Quad, end: Quad)
      requires Counted()
      modifies this, bitmap
      ensures Counted()
      ensures Free() == old(Free()) + PageSpan(FirstInside(start), LastInside(end))
      ensures highestPage == if LastInside(end) > old(highestPage) then LastInside(end) else old(highestPage)
    {
      hide FreePages, PageSpan, Wrap64;
      var first := Wrap64(start + PAGE_SIZE - 1) / PAGE_SIZE;
      var last := end / PAGE_SIZE;
      if last > MAX_PAGES {
        last := MAX_PAGES;
      }
      FreeSpan(first, last);
      SpanBound(first, last);
      if last > highestPage {
        highestPage := last;
      }
    }

    method ReserveRange(start: Quad, end: Quad)
      requires Counted() && end + PAGE_SIZE - 1 < 0x1_0000_0000_0000_0000
      modifies this, bitmap
      ensures Counted() && highestPage == old(highestPage)
      ensures Free() == old(Free()) - PagesTouched(start, end)
    {
      hide FreePages, PageSpan, PagesTouched;
      var first := start / PAGE_SIZE;
      var last := Wrap64(end + PAGE_SIZE - 1) / PAGE_SIZE;
      if first >= MAX_PAGES {
        NothingTouchedAbove(start, end);
        assert Free() == Free() - {};
        return;
      }
      if last > MAX_PAGES {
        last := MAX_PAGES;
      }
      TouchedIsSpan(start, end, first, last);
      ReserveSpan(first, last);
    }

    /** Start-up: every page is unavailable. */
    method Clear()
      requires bitmap.Length == BITMAP_BYTES
      modifies this, bitmap
      ensures Counted() && Free() == {} && highestPage == 0
    {
      var i := 0;
      while i < BITMAP_BYTES
        invariant 0 <= i <= BITMAP_BYTES
        invariant forall j :: 0 <= j < i ==> bitmap[j] == 0xff
      {
        bitmap[i] := 0xff;
        i := i + 1;
      }
      highestPage, freeCount := 0, 0;
      AllOnes(bitmap[..]);
    }

    /** The walk over the memory map. */
    method FreeUsable(regions: seq<Region>)
      requires Counted() && Free() == {} && highestPage == 0
      modifies this, bitmap
      ensures Counted() && Free() == FreedByAll(regions) && highestPage == Highest(regions)
    {
      hide FreePages, FreedByAll, FreedBy, Highest, PageSpan, Wrap64, FirstInside, LastInside;
      var n := 0;
      NoRegionYet(regions);
      while n < |regions|
        invariant 0 <= n <= |regions|
        invariant Counted()
        invariant Free() == FreedByAll(regions[..n])
        invariant highestPage == Highest(regions[..n])
      {
        var r := regions[n];
        RegionAdded(regions, n);
        if r.kind == 1 && r.length != 0 {
          FreeRange(r.base, Wrap64(r.base + r.length));
        }
        n := n + 1;
      }
      assert regions[..n] == regions;
    }

    /** The first half of pmm_init: the boot map or the fixed window. */
    method LoadMap(info: BootInfo)
      requires bitmap.Length == BITMAP_BYTES
      modifies this, bitmap
      ensures Counted() && Free() == MapFree(info) && highestPage == BootHighest(info)
    {
      hide FreePages, PagesTouched, PagesInside, PageSpan, FreedByAll, Highest, Usable, FirstInside, Wrap64;
      NoRegionYet(info.regions);
      Clear();
      if info.address != 0 {
        FreeUsable(info.regions);
        ReserveRange(info.address, info.address + info.totalSize);
      }
      if highestPage == 0 {
        assert Free() == {} by {
          if p :| p in Free() { assert false; }
        }
        FreeRange(0x10_0000, 0x100_0000);
        FallbackWindow();
      }
    }

    /** pmm_init, with the walk over the boot tags replaced by its region list. */
    method Init(info: BootInfo, kernelEnd: Word)
      requires bitmap.Length == BITMAP_BYTES
      modifies this, bitmap
      ensures Valid()
      ensures Free() == BootFree(info, kernelEnd) && highestPage == BootHighest(info)
    {
      hide FreePages, PagesTouched, MapFree, BootHighest;
      LoadMap(info);
      ReserveRange(0, 0x1000);
      ReserveRange(0, kernelEnd);
      BootFreeBounds(info, kernelEnd);
      assert Free() == BootFree(info, kernelEnd);
    }

    method AllocatePage() returns (address: Word)
      requires Valid()
      modifies this, bitmap
      ensures Valid()
      ensures View() == Allocated(old(View())).0 && address == Allocated(old(View())).1
      ensures address == 0 <==> old(freeCount) == 0
    {
      hide FreePages;
      var page := 1;
      while page < highestPage
        invariant 1 <= page
        invariant Valid() && View() == old(View())
        invariant forall q :: q in Free() ==> page <= q
      {
        var used := IsUsed(page);
        if !used {
          ghost var before := Free();
          SetUsed(page);
          assert Free() == before - {page as nat};
          freeCount := Wrap32(freeCount - 1);
          assert IsLeast(page, before);
          address := Wrap32(page * PAGE_SIZE);
          return;
        }
        page := page + 1;
      }
      assert Free() == {} by {
        if q :| q in Free() { assert false; }
      }
      address := 0;
    }

    method FreePage(address: Word)
      requires Valid()
      modifies this, bitmap
      ensures Valid() && View() == Released(old(View()), address)
    {
      hide FreePages;
      var page := address / PAGE_SIZE;
      if page == 0 || page >= highestPage {
        return;
      }
      var used := IsUsed(page);
      if !used {
        assert Free() + {page as nat} == Free();
        return;
      }
      SetFree(page);
      FreeCountBound(bitmap[..]);
      freeCount := Wrap32(freeCount + 1);
    }
  }

  // ------------------------------------------------------- set arithmetic

  lemma AllOnes(bitmap: seq<bv8>)
    requires |bitmap| == BITMAP_BYTES && forall j :: 0 <= j < |bitmap| ==> bitmap[j] == 0xff
    ensures FreePages(bitmap) == {}
  {
    forall p: nat | p < MAX_PAGES ensures Used(bitmap, p) {
      MaskTable(p % 8);
    }
  }

  lemma FallbackWindow()
    ensures PageSpan(FirstInside(0x10_0000), LastInside(0x100_0000)) == PagesInside(0x10_0000, 0x100_0000)
    ensures LastInside(0x100_0000) == 4096
  {
    forall p: nat | p < MAX_PAGES
      ensures Inside(p, 0x10_0000, 0x100_0000) <==> Between(p, FirstInside(0x10_0000), LastInside(0x100_0000))
    {
      InsideIsBetween(p, 0x10_0000, 0x100_0000);
    }
  }

  lemma NoRegionYet(rs: seq<Region>)
    ensures rs[..0] == [] && FreedByAll([]) == {} && Highest([]) == 0
  {
  }

  /** What one more region adds to the free pages and to the high-water mark. */
  lemma RegionAdded(rs: seq<Region>, n: nat)
    requires n < |rs|
    ensures var r, more, less := rs[n], rs[..n + 1], rs[..n];
            var last := LastInside(Wrap64(r.base + r.length));
            if Usable(r) then
              && FreedByAll(more) == FreedByAll(less) + PageSpan(FirstInside(r.base), last)
              && Highest(more) == if last > Highest(less) then last else Highest(less)
            else FreedByAll(more) == FreedByAll(less) && Highest(more) == Highest(less)
  {
    hide FreedByAll, PageSpan, Wrap64, FirstInside, LastInside;
    FreedByOneMore(rs, n);
    assert rs[..n + 1][n] == rs[n];
  }

  lemma FreedByOneMore(rs: seq<Region>, n: nat)
    requires n < |rs|
    ensures FreedByAll(rs[..n + 1]) == FreedByAll(rs[..n]) + if Usable(rs[n]) then FreedBy(rs[n]) else {}
    ensures rs[..n + 1][..n] == rs[..n]
  {
    var more, less := rs[..n + 1], rs[..n];
    forall p | p in FreedByAll(more) && !(Usable(rs[n]) && p in FreedBy(rs[n])) ensures p in FreedByAll(less) {
      var i: nat :| i < |more| && p < MAX_PAGES && Usable(more[i]) && p in FreedBy(more[i]);
      assert less[i] == more[i];
    }
    forall p | p in FreedByAll(less) ensures p in FreedByAll(more) {
      var i: nat :| i < |less| && p < MAX_PAGES && Usable(less[i]) && p in FreedBy(less[i]);
      assert more[i] == less[i];
    }
    if Usable(rs[n]) {
      forall p | p in FreedBy(rs[n]) ensures p in FreedByAll(more) {
        assert more[n] == rs[n];
      }
    }
  }

  /** A set of page numbers below n has at most n elements. */
  lemma {:induction false} BoundedSetSize(s: set<nat>, n: nat)
    requires forall p :: p in s ==> p < n
    ensures |s| <= n
  {
    if n == 0 {
      assert s == {};
    } else {
      BoundedSetSize(s - {n - 1}, n - 1);
    }
  }

  lemma FreeCountBound(bitmap: seq<bv8>)
    requires |bitmap| == BITMAP_BYTES
    ensures |FreePages(bitmap)| <= MAX_PAGES
  {
    BoundedSetSize(FreePages(bitmap), MAX_PAGES);
  }
}
