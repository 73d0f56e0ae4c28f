/** The loader's page tables, built in physical memory before paging is switched on. */
module PagingSetup {
  import opened Words
  import opened Wrappers
  import opened Paging

  // ---------------------------------------------------------------- specification

  function RangeEntry(start: nat, target: nat, v: nat): Word
    requires target <= v && start + (v - target) < PAGES
  {
    (start + (v - target)) * 0x1000 + 7
  }

  /** `count` pages from virtual page `target` on show the frames from `start` on. */
  function MapRange(pt: seq<Word>, start: nat, count: nat, target: nat): (r: seq<Word>)
    requires |pt| == PAGES && start + count <= PAGES && target + count <= PAGES
    ensures |r| == PAGES
  {
    seq(PAGES, v requires 0 <= v < PAGES =>
      if target <= v < target + count then RangeEntry(start, target, v) else pt[v])
  }

  lemma MapRangeStep(pt: seq<Word>, start: nat, k: nat, target: nat)
    requires |pt| == PAGES && start + k < PAGES && target + k < PAGES
    ensures MapRange(pt, start, k + 1, target)
      == MapRange(pt, start, k, target)[target + k := RangeEntry(start, target, target + k)]
  {
  }

  /** Where the finished boot table sends a page. */
  function BootFrame(v: nat): (r: Option<nat>)
    ensures r.Some? ==> r.value < 0x800
  {
    if v == 0x8 then Some(0x8)
    else if v == 0x10 then Some(0x10)
    else if 0xc0000 <= v < 0xc0010 then Some(v - 0xc0000 + 0x20)
    else if v == 0xc0010 then Some(0x10)
    else if v == 0xc0011 then Some(0x7)
    else if v == 0xc0012 then Some(0xe)
    else if 0xc0600 <= v < 0xc0800 then Some(v - 0xc0600 + 0x600)
    else if 0xffbf8 <= v < 0xffbff then Some(v - 0xffbf8)
    else if 0xffbff <= v < 0x10_0000 then Some(v - 0xffbff + 0x1ff)
    else None
  }

  ghost predicate IsBootTable(pt: seq<Word>) {
    |pt| == PAGES && forall v :: 0 <= v < PAGES ==>
      pt[v] == match BootFrame(v) case None => 0 case Some(f) => f * 0x1000 + 7
  }

  // ---------------------------------------------------------------- the boot addresses

  /** What the kernel finds where, address by address, from 0 to 4 GiB. */
  ghost predicate BootAddresses(m: Memory) {
    && NothingAt(m, 0x0, 0x8000)
    && Shows(m, 0x8000, 0x1000, 0x8000) // boot sector and loader, for now
    && NothingAt(m, 0x9000, 0x1_0000)
    && Shows(m, 0x1_0000, 0x1000, 0x1_0000) // descriptor tables, for now
    && NothingAt(m, 0x1_1000, 0xc000_0000)
    && Shows(m, 0xc000_0000, 0x1_0000, 0x2_0000) // KERNEL.SYS, where load_file put it
    && Shows(m, 0xc001_0000, 0x1000, 0x1_0000) // descriptor tables
    && Shows(m, 0xc001_1000, 0x1000, 0x7000) // the page with the mode information at 0x7e00
    && Shows(m, 0xc001_2000, 0x1000, 0xe000) // memory map
    && NothingAt(m, 0xc001_3000, 0xc060_0000)
    && Shows(m, 0xc060_0000, 0x20_0000, 0x60_0000) // frame bitmap
    && NothingAt(m, 0xc080_0000, 0xffbf_8000)
    && Shows(m, 0xffbf_8000, 0x7000, 0x0) // stack
    && Shows(m, 0xffbf_f000, 0x40_1000, 0x1f_f000) // page directory and page table
  }

  /** Directory and table in memory: every present entry is writable and open to user mode. */
  ghost predicate BootEntries(m: Memory) {
    && (forall i :: 0x7_fc00 <= i < 0x8_0000 ==> m[i] == 0x20_0007 + 0x1000 * (i - 0x7_fc00))
    && (forall i :: 0x8_0000 <= i < 0x18_0000 ==> m[i] == 0 || m[i] % 0x1000 == 7)
  }

  lemma BootTableAddresses(m: Memory)
    requires FlatDirectory(m) && IsBootTable(PageTableOf(m))
    ensures BootAddresses(m) && BootEntries(m)
  {
    forall v | 0 <= v < PAGES ensures Entry(PageTableOf(m)[v]) == BootFrame(v) {
      if BootFrame(v).Some? { EntryOfFrame(BootFrame(v).value); }
    }
    PagesAbsent(m, 0x0, 0x8);
    PagesShow(m, 0x8, 0x1, 0x8);
    PagesAbsent(m, 0x9, 0x10);
    PagesShow(m, 0x10, 0x1, 0x10);
    PagesAbsent(m, 0x11, 0xc0000);
    PagesShow(m, 0xc0000, 0x10, 0x20);
    PagesShow(m, 0xc0010, 0x1, 0x10);
    PagesShow(m, 0xc0011, 0x1, 0x7);
    PagesShow(m, 0xc0012, 0x1, 0xe);
    PagesAbsent(m, 0xc0013, 0xc0600);
    PagesShow(m, 0xc0600, 0x200, 0x600);
    PagesAbsent(m, 0xc0800, 0xffbf8);
    PagesShow(m, 0xffbf8, 0x7, 0x0);
    PagesShow(m, 0xffbff, 0x401, 0x1ff);
    BootTableEntries(m);
  }

  lemma BootTableEntries(m: Memory)
    requires FlatDirectory(m) && IsBootTable(PageTableOf(m))
    ensures BootEntries(m)
  {
    forall i | 0x8_0000 <= i < 0x18_0000 ensures m[i] == 0 || m[i] % 0x1000 == 7 {
      assert m[i] == PageTableOf(m)[i - 0x8_0000];
    }
    forall i | 0x7_fc00 <= i < 0x8_0000 ensures m[i] == 0x20_0007 + 0x1000 * (i - 0x7_fc00) {
      assert m[DIR_WORD + (i - 0x7_fc00)] == DirectoryEntry(i - 0x7_fc00);
    }
  }

  /** Words outside directory and table. */
  ghost predicate SameOutside(m: Memory, m': Memory) {
    m[..DIR_WORD] == m'[..DIR_WORD] && m[BITMAP_WORD..] == m'[BITMAP_WORD..]
  }

  // ---------------------------------------------------------------- the loader's routines

  /** memclr on the page table: `rep stosb` of zeros, counted in words here. */
  method MemClr(mem: array<Word>, start: nat, size: nat)
    requires mem.Length == PHYS_WORDS && start == PAGE_TABLE_BASE && size == 4 * PAGES
    modifies mem
    ensures mem[..TABLE_WORD] == old(mem[..TABLE_WORD]) && mem[BITMAP_WORD..] == old(mem[BITMAP_WORD..])
    ensures PageTableOf(mem[..]) == seq(PAGES, (v: nat) => 0 as Word)
  {
    var edi := start;
    var ecx := size;
    while ecx > 0
      invariant 0 <= ecx <= size && ecx % 4 == 0 && edi == start + (size - ecx)
      invariant mem[..TABLE_WORD] == old(mem[..TABLE_WORD]) && mem[BITMAP_WORD..] == old(mem[BITMAP_WORD..])
      invariant forall i :: TABLE_WORD <= i < edi / 4 ==> mem[i] == 0
    {
      mem[edi / 4] := 0;
      edi := edi + 4;
      ecx := ecx - 4;
    }
  }

  /** memory_page_map */
  method MemoryPageMap(mem: array<Word>, start: nat, count: nat, target: nat)
    requires mem.Length == PHYS_WORDS && start + count <= PAGES && target + count <= PAGES
    modifies mem
    ensures PageTableOf(mem[..]) == MapRange(old(PageTableOf(mem[..])), start, count, target)
    ensures mem[..TABLE_WORD] == old(mem[..TABLE_WORD]) && mem[BITMAP_WORD..] == old(mem[BITMAP_WORD..])
  {
    ghost var pt0 := PageTableOf(mem[..]);
    var eax := start * 0x1000 % 0x1_0000_0000;
    var ecx := count;
    var edx := target * 4 % 0x1_0000_0000 + PAGE_TABLE_BASE;
    ghost var k := 0;
    assert PageTableOf(mem[..]) == MapRange(pt0, start, 0, target);
    while ecx != 0
      invariant k + ecx == count && 0 <= ecx
      invariant edx == (TABLE_WORD + target + k) * 4 && eax == (start + k) * 0x1000 % 0x1_0000_0000
      invariant PageTableOf(mem[..]) == MapRange(pt0, start, k, target)
      invariant mem[..TABLE_WORD] == old(mem[..TABLE_WORD]) && mem[BITMAP_WORD..] == old(mem[BITMAP_WORD..])
    {
      OrPresentFlags(start + k);
      assert edx / 4 == TABLE_WORD + (target + k) && eax == (start + k) * 0x1000;
      ghost var m1: Memory := mem[..];
      mem[edx / 4] := eax;
      mem[edx / 4] := Or(mem[edx / 4], 0x7);
      assert mem[..] == m1[TABLE_WORD + (target + k) := RangeEntry(start, target, target + k)];
      TableUpdate(m1, target + k, RangeEntry(start, target, target + k));
      MapRangeStep(pt0, start, k, target);
      NextPage(start + k);
      edx := edx + 4;
      ecx := ecx - 1;
      eax := (eax + 0x1000) % 0x1_0000_0000;
      k := k + 1;
    }
  }

  lemma OrPresentFlags(page: nat)
    requires page < PAGES
    ensures Or(page * 0x1000, 7) == page * 0x1000 + 7 < 0x1_0000_0000
    ensures page * 0x1000 % 0x1_0000_0000 == page * 0x1000
  {
    OrFlags(page, 7);
  }

  lemma NextPage(page: nat)
    ensures (page * 0x1000 % 0x1_0000_0000 + 0x1000) % 0x1_0000_0000 == (page + 1) * 0x1000 % 0x1_0000_0000
  {
  }

  lemma EntryOfFrame(f: nat)
    requires f < PAGES
    ensures f * 0x1000 + 7 < 0x1_0000_0000 && Entry(f * 0x1000 + 7) == Some(f)
  {
  }

  /** init_kernel_paging */
  method InitKernelPaging(mem: array<Word>)
    requires mem.Length == PHYS_WORDS
    modifies mem
    ensures FlatDirectory(mem[..]) && SameOutside(old(mem[..]), mem[..])
    ensures PageTableOf(mem[..]) == seq(PAGES, (v: nat) => 0 as Word)
  {
    var ecx := PAGE_DIRECTORY_BASE;
    var eax := ecx + 0x1000;
    var counter := 0;
    while counter != 0x400
      invariant 0 <= counter <= 0x400 && ecx == PAGE_DIRECTORY_BASE + 4 * counter && eax == (0x200 + counter) * 0x1000
      invariant forall d :: 0 <= d < counter ==> mem[DIR_WORD + d] == DirectoryEntry(d)
      invariant SameOutside(old(mem[..]), mem[..])
      decreases 0x400 - counter
    {
      OrPresentFlags(0x200 + counter);
      mem[ecx / 4] := Or(eax, 0x7);
      eax := eax + 0x1000;
      ecx := ecx + 4;
      counter := counter + 1;
    }
    ghost var m1: Memory := mem[..];
    MemClr(mem, PAGE_TABLE_BASE, 0x0040_0000);
    ghost var m2: Memory := mem[..];
    DirectoryBelowTable(m1, m2);
  }

  lemma DirectoryBelowTable(m: Memory, m': Memory)
    requires FlatDirectory(m) && m[..TABLE_WORD] == m'[..TABLE_WORD] && m[BITMAP_WORD..] == m'[BITMAP_WORD..]
    ensures FlatDirectory(m') && SameOutside(m, m')
  {
  }

  /** The mapping sequence of protect_mode_start. */
  method SetUpPaging(mem: array<Word>)
    requires mem.Length == PHYS_WORDS
    modifies mem
    ensures FlatDirectory(mem[..]) && SameOutside(old(mem[..]), mem[..])
    ensures IsBootTable(PageTableOf(mem[..]))
    ensures BootAddresses(mem[..]) && BootEntries(mem[..])
  {
    InitKernelPaging(mem);
    ghost var m0: Memory := mem[..];
    MemoryPageMap(mem, 0x8, 0x1, 0x8);
    MemoryPageMap(mem, 0x10, 0x1, 0x10);
    MemoryPageMap(mem, 0x20, 0x10, 0xc0000);
    MemoryPageMap(mem, 0x10, 0x1, 0xc0010);
    MemoryPageMap(mem, 0x7, 0x1, 0xc0011);
    MemoryPageMap(mem, 0xe, 0x1, 0xc0012);
    MemoryPageMap(mem, 0x600, 0x200, 0xc0600);
    MemoryPageMap(mem, 0x0, 0x7, 0xffbf8);
    MemoryPageMap(mem, 0x1ff, 0x401, 0xffbff);
    DirectoryBelowTable(m0, mem[..]);
    NineRanges(PageTableOf(mem[..]));
    BootTableAddresses(mem[..]);
  }

  /** The nine ranges, one after the other over an empty table. */
  function NineRangesTable(): (pt: seq<Word>)
    ensures |pt| == PAGES
  {
    var p0 := seq(PAGES, (v: nat) => 0 as Word);
    var p1 := MapRange(MapRange(p0, 0x8, 0x1, 0x8), 0x10, 0x1, 0x10);
    var p2 := MapRange(MapRange(p1, 0x20, 0x10, 0xc0000), 0x10, 0x1, 0xc0010);
    var p3 := MapRange(MapRange(p2, 0x7, 0x1, 0xc0011), 0xe, 0x1, 0xc0012);
    var p4 := MapRange(MapRange(p3, 0x600, 0x200, 0xc0600), 0x0, 0x7, 0xffbf8);
    MapRange(p4, 0x1ff, 0x401, 0xffbff)
  }

  lemma NineRanges(pt: seq<Word>)
    requires pt == NineRangesTable()
    ensures IsBootTable(pt)
  {
  }

  // ---------------------------------------------------------------- what the table gives the kernel

  /** The boot table provides the self-map and the bitmap window. */
  lemma BootTableServesKernel(m: Memory)
    requires FlatDirectory(m) && IsBootTable(PageTableOf(m))
    ensures SelfMapped(m) && BitmapWindow(m)
  {
    var pt := PageTableOf(m);
    forall v | TABLE_WINDOW <= v < PAGES ensures Entry(Pte(m, v)) == Some(v - 0xffa00) {
      EntryOfFrame(v - 0xffa00);
      assert Pte(m, v) == pt[v] == (v - 0xffa00) * 0x1000 + 7;
    }
    forall v | BITMAP_WINDOW <= v < BITMAP_WINDOW + 0x200 ensures Entry(Pte(m, v)) == Some(v - 0xc0000) {
      EntryOfFrame(v - 0xc0000);
      assert Pte(m, v) == pt[v] == (v - 0xc0000) * 0x1000 + 7;
    }
  }

  /** Two pages of the boot table share a frame only for the temporary alias of the IDT page. */
  lemma BootAliasExactly(u: nat, v: nat)
    requires u < v < PAGES && BootFrame(u).Some? && BootFrame(v).Some?
    ensures BootFrame(u) == BootFrame(v) <==> u == 0x10 && v == 0xc0010
  {
  }
}
