/**
 The E820 memory map (ACPI 6.5, section 15.1) and the pages that mm_init takes from it,
 with the kernel's own 64-bit wrap-around arithmetic.
 */
module MemoryMap {
  import opened Wrappers

  const USABLE_PHY_ADDR_BASE: nat := 0x80_0000
  const BITMAP_LIMIT: nat := 0x10_0000_0000 // 64 GiB: what a 2 MiB bitmap covers

  datatype Region = Region(addr: nat, size: nat, kind: nat)

  /** The part of a region that mm_init walks: start address and size in bytes. */
  datatype Span = Span(start: nat, size: nat)

  predicate WellFormed(r: Region) {
    r.addr + r.size <= 0x1_0000_0000_0000_0000
  }

  /** The alignment step. For an unaligned start the new address drops the page base, and the
      distance to it is taken modulo 2^64. */
  function Walked(r: Region): Option<Span> {
    if r.addr % 0x1000 == 0 then Some(Span(r.addr, r.size))
    else
      var newAddr := r.addr % 0x1000 + 0x1000;
      var skip := (newAddr - r.addr) % 0x1_0000_0000_0000_0000;
      if skip >= r.size then None else Some(Span(newAddr, r.size - skip))
  }

  /** First page walked and the page after the last one. */
  function FirstPage(s: Span): nat { s.start / 0x1000 }

  function EndPage(s: Span): nat { s.start / 0x1000 + s.size / 0x1000 }

  lemma PageNumber(start: nat, k: nat)
    ensures (start + 0x1000 * k) / 0x1000 == start / 0x1000 + k
  {
  }

  predicate WalkedPage(r: Region, p: nat) {
    Walked(r).Some? && FirstPage(Walked(r).value) <= p < EndPage(Walked(r).value)
  }

  /** Page p becomes free on account of region r. */
  predicate MarkedBy(r: Region, p: nat) {
    r.kind == 1 && USABLE_PHY_ADDR_BASE <= 0x1000 * p && WalkedPage(r, p)
  }

  ghost predicate Marked(regions: seq<Region>, p: nat) {
    exists i :: 0 <= i < |regions| && MarkedBy(regions[i], p)
  }

  lemma MarkedStep(regions: seq<Region>, i: nat)
    requires i < |regions|
    ensures forall p :: Marked(regions[..i + 1], p) <==> Marked(regions[..i], p) || MarkedBy(regions[i], p)
  {
  }

  /** Everything walked lies below 64 GiB, so the bitmap has room for it. */
  predicate FitsBitmap(r: Region) {
    match Walked(r)
    case None => true
    case Some(s) => s.start + s.size <= BITMAP_LIMIT
  }

  /** 64-bit address and size, within the bitmap's reach. */
  predicate Acceptable(r: Region) {
    r.addr < 0x1_0000_0000_0000_0000 && r.size < 0x1_0000_0000_0000_0000 && FitsBitmap(r)
  }

  predicate Inside(r: Region, p: nat) {
    r.addr <= 0x1000 * p && 0x1000 * p + 0x1000 <= r.addr + r.size
  }

  predicate Overlaps(r: Region, p: nat) {
    r.addr < 0x1000 * p + 0x1000 && 0x1000 * p < r.addr + r.size
  }

  predicate Usable(r: Region, p: nat) {
    r.kind == 1 && USABLE_PHY_ADDR_BASE <= 0x1000 * p && Inside(r, p)
  }

  /** An unaligned region at or above 0x2000 is dropped altogether. */
  lemma UnalignedRegionDropped(r: Region)
    requires WellFormed(r) && r.addr % 0x1000 != 0 && r.addr >= 0x2000
    ensures Walked(r) == None
  {
    var newAddr := r.addr % 0x1000 + 0x1000;
    assert (newAddr - r.addr) % 0x1_0000_0000_0000_0000 == newAddr - r.addr + 0x1_0000_0000_0000_0000;
  }

  /** An unaligned region below 0x2000 is walked from 0x1000 plus its page offset. */
  lemma UnalignedLowRegion(r: Region)
    requires WellFormed(r) && r.addr % 0x1000 != 0 && r.addr < 0x2000
    ensures Walked(r).Some? ==>
      && Walked(r).value.start == 0x1000 + r.addr % 0x1000
      && Walked(r).value.start + Walked(r).value.size == r.addr + r.size
    ensures Walked(r) == None <==> r.addr + r.size <= 0x1000 + r.addr % 0x1000
  {
  }

  /** Soundness: whatever the alignment, a page that is marked lies inside the region. */
  lemma MarkedIsUsable(r: Region, p: nat)
    requires WellFormed(r) && MarkedBy(r, p)
    ensures Usable(r, p)
  {
    if r.addr % 0x1000 != 0 {
      if r.addr >= 0x2000 { UnalignedRegionDropped(r); } else { UnalignedLowRegion(r); }
    }
  }

  /** Exactness for aligned regions. */
  lemma AlignedIsExact(r: Region, p: nat)
    requires r.addr % 0x1000 == 0
    ensures MarkedBy(r, p) <==> Usable(r, p)
  {
  }

  /** No usable whole page at all. */
  predicate NoUsablePage(r: Region) {
    r.kind != 1 || (r.addr + r.size) / 0x1000 <= 0x800 || (r.addr + r.size) / 0x1000 <= (r.addr + 0xfff) / 0x1000
  }

  /** When does a region give up all of its usable pages? */
  predicate NothingLost(r: Region) {
    || r.addr % 0x1000 == 0
    || NoUsablePage(r)
    || (r.addr < 0x2000 && r.addr % 0x1000 <= (r.addr + r.size) % 0x1000)
  }

  lemma LastUsablePage(r: Region)
    requires !NoUsablePage(r)
    ensures Usable(r, (r.addr + r.size) / 0x1000 - 1)
  {
  }

  /** Completeness fails for unaligned regions in general; this is exactly when it holds. */
  lemma CompleteExactly(r: Region)
    requires WellFormed(r)
    ensures (forall p: nat :: Usable(r, p) ==> MarkedBy(r, p)) <==> NothingLost(r)
  {
    if r.addr % 0x1000 == 0 {
      forall p: nat | Usable(r, p) ensures MarkedBy(r, p) { AlignedIsExact(r, p); }
    } else if r.addr >= 0x2000 {
      UnalignedRegionDropped(r);
      if !NoUsablePage(r) { LastUsablePage(r); }
    } else {
      UnalignedLowRegion(r);
      if !NoUsablePage(r) { LastUsablePage(r); }
    }
  }

  /** A concrete loss: 1 MiB of RAM at 16 MiB + 1 KiB yields no page. */
  lemma UnalignedLosesRam()
    ensures var r := Region(0x100_0400, 0x10_0000, 1);
      Usable(r, 0x1001) && forall p: nat :: !MarkedBy(r, p)
  {
  }

  // ---------------------------------------------------------------- whole maps

  lemma MapIsSound(regions: seq<Region>, p: nat)
    requires forall i :: 0 <= i < |regions| ==> WellFormed(regions[i])
    requires Marked(regions, p)
    ensures p >= 0x800
    ensures exists i :: 0 <= i < |regions| && regions[i].kind == 1 && Inside(regions[i], p)
  {
    var i :| 0 <= i < |regions| && MarkedBy(regions[i], p);
    MarkedIsUsable(regions[i], p);
  }

  lemma MapIsExact(regions: seq<Region>, p: nat)
    requires forall i :: 0 <= i < |regions| ==> regions[i].addr % 0x1000 == 0
    ensures Marked(regions, p) <==> exists i :: 0 <= i < |regions| && Usable(regions[i], p)
  {
    forall i | 0 <= i < |regions| ensures MarkedBy(regions[i], p) <==> Usable(regions[i], p) {
      AlignedIsExact(regions[i], p);
    }
  }

  /** In bytes: page p, at or above 8 MiB, lies wholly within a region of usable memory. */
  ghost predicate UsableByMap(regions: seq<Region>, p: nat) {
    && p >= 0x800
    && exists i :: 0 <= i < |regions| && regions[i].kind == 1 &&
         regions[i].addr <= 0x1000 * p && 0x1000 * p + 0x1000 <= regions[i].addr + regions[i].size
  }

  lemma MapInBytes(regions: seq<Region>, p: nat)
    ensures (forall i :: 0 <= i < |regions| ==> WellFormed(regions[i])) && Marked(regions, p) ==>
      UsableByMap(regions, p)
    ensures (forall i :: 0 <= i < |regions| ==> regions[i].addr % 0x1000 == 0) ==>
      (Marked(regions, p) <==> UsableByMap(regions, p))
  {
    if (forall i :: 0 <= i < |regions| ==> WellFormed(regions[i])) && Marked(regions, p) {
      MapIsSound(regions, p);
    }
    if forall i :: 0 <= i < |regions| ==> regions[i].addr % 0x1000 == 0 {
      MapIsExact(regions, p);
      forall i | 0 <= i < |regions|
        ensures Usable(regions[i], p) <==>
          p >= 0x800 && regions[i].kind == 1 &&
          regions[i].addr <= 0x1000 * p && 0x1000 * p + 0x1000 <= regions[i].addr + regions[i].size
      {
      }
    }
  }

  /** Two regions share no byte. */
  predicate Apart(a: Region, b: Region) {
    a.addr + a.size <= b.addr || b.addr + b.size <= a.addr
  }

  /** Disjoint regions: no free page touches a region of another type. */
  lemma DisjointMapExcludesReserved(regions: seq<Region>, p: nat, j: nat)
    requires forall i :: 0 <= i < |regions| ==> WellFormed(regions[i])
    requires forall i, k :: 0 <= i < k < |regions| ==> Apart(regions[i], regions[k])
    requires Marked(regions, p) && j < |regions| && regions[j].kind != 1
    ensures !Overlaps(regions[j], p)
  {
    var i :| 0 <= i < |regions| && MarkedBy(regions[i], p);
    MarkedIsUsable(regions[i], p);
    if i < j { assert Apart(regions[i], regions[j]); } else { assert Apart(regions[j], regions[i]); }
  }

  /** The pages that region r marks, as an interval of bytes, miss region b. */
  predicate MarkedPagesMiss(r: Region, b: Region) {
    r.kind == 1 && Walked(r).Some? ==>
      var lo := if FirstPage(Walked(r).value) < 0x800 then 0x800 else FirstPage(Walked(r).value);
      var hi := EndPage(Walked(r).value);
      hi <= lo || b.size == 0 || 0x1000 * hi <= b.addr || b.addr + b.size <= 0x1000 * lo
  }

  lemma MarkedPagesMissExactly(r: Region, b: Region)
    ensures MarkedPagesMiss(r, b) <==> forall p: nat :: MarkedBy(r, p) && b.size != 0 ==> !Overlaps(b, p)
  {
    if r.kind == 1 && Walked(r).Some? && !MarkedPagesMiss(r, b) {
      var lo := if FirstPage(Walked(r).value) < 0x800 then 0x800 else FirstPage(Walked(r).value);
      var p := if b.addr / 0x1000 < lo then lo else b.addr / 0x1000;
      assert MarkedBy(r, p) && Overlaps(b, p);
    }
  }

  /** No free page touches a (non-empty) region of another type. */
  ghost predicate ReservedExcluded(regions: seq<Region>) {
    forall p: nat, j :: 0 <= j < |regions| && regions[j].kind != 1 && regions[j].size != 0 && Marked(regions, p)
      ==> !Overlaps(regions[j], p)
  }

  /** A mask of 0 clears nothing, so reserved memory stays out of the free set exactly when
      no type-1 region's marked interval meets a region of another type. */
  lemma ReservedExcludedExactly(regions: seq<Region>)
    ensures ReservedExcluded(regions) <==>
      forall i, j :: 0 <= i < |regions| && 0 <= j < |regions| && regions[j].kind != 1
        ==> MarkedPagesMiss(regions[i], regions[j])
  {
    forall i, j | 0 <= i < |regions| && 0 <= j < |regions| && regions[j].kind != 1
      ensures ReservedExcluded(regions) ==> MarkedPagesMiss(regions[i], regions[j])
      ensures MarkedPagesMiss(regions[i], regions[j]) <==>
        forall p: nat :: MarkedBy(regions[i], p) && regions[j].size != 0 ==> !Overlaps(regions[j], p)
    {
      MarkedPagesMissExactly(regions[i], regions[j]);
      forall p: nat | MarkedBy(regions[i], p) ensures Marked(regions, p) {
      }
    }
  }

  /** A concrete failure: a reserved page inside the 1 MiB of RAM listed before it stays free. */
  lemma ReservedPageStaysFree()
    ensures var regions := [Region(0x100_0000, 0x10_0000, 1), Region(0x100_8000, 0x1000, 2)];
      Marked(regions, 0x1008) && Overlaps(regions[1], 0x1008) && !ReservedExcluded(regions)
  {
    var regions := [Region(0x100_0000, 0x10_0000, 1), Region(0x100_8000, 0x1000, 2)];
    assert MarkedBy(regions[0], 0x1008);
    assert regions[1].kind != 1 && Overlaps(regions[1], 0x1008);
  }
}
