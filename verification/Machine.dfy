/**
 The running kernel: physical memory, the processor's TLB and the memory manager.
 Kernel code reaches the page table and the bitmap only through virtual addresses, which
 go through the TLB or a page walk. The processor may cache or drop translations at any time.
 */
module Machine {
  import opened Words
  import opened Wrappers
  import opened Paging
  import opened MemoryMap
  import opened Frames

  /** What the kernel may rely on: flat directory, both windows, a fresh TLB. */
  ghost predicate KernelMemory(m: Memory, tlb: Tlb) {
    && SelfMapped(m)
    && BitmapWindow(m)
    && Coherent(m, tlb, {})
  }

  /** Pages through which the kernel sees its page table and bitmap. */
  predicate WindowPage(v: nat) {
    v >= TABLE_WINDOW || BITMAP_WINDOW <= v < BITMAP_WINDOW + 0x200
  }

  /** Entry w at page v leaves the two windows as they are. */
  predicate KeepsWindows(v: nat, w: Word) {
    && (v >= TABLE_WINDOW ==> Entry(w) == Some(v - 0xffa00))
    && (BITMAP_WINDOW <= v < BITMAP_WINDOW + 0x200 ==> Entry(w) == Some(v - 0xc0000))
  }

  /** Nothing but page table and bitmap differs. */
  ghost predicate SameElsewhere(m: Memory, m': Memory) {
    m[..TABLE_WORD] == m'[..TABLE_WORD] && m[BITMAP_WORD + BITMAP_WORDS..] == m'[BITMAP_WORD + BITMAP_WORDS..]
  }

  /** Nothing but the bitmap differs. */
  ghost predicate OnlyBitmap(m: Memory, m': Memory) {
    m[..BITMAP_WORD] == m'[..BITMAP_WORD] && m[BITMAP_WORD + BITMAP_WORDS..] == m'[BITMAP_WORD + BITMAP_WORDS..]
  }

  lemma OnlyBitmapKeepsTable(m: Memory, m': Memory)
    requires OnlyBitmap(m, m')
    ensures PageTableOf(m) == PageTableOf(m') && SameElsewhere(m, m')
  {
  }

  lemma BitmapWrite(m: Memory, tlb: Tlb, i: nat, w: Word)
    requires KernelMemory(m, tlb) && i < BITMAP_WORDS
    ensures var m' := m[BITMAP_WORD + i := w];
      KernelMemory(m', tlb) && OnlyBitmap(m, m')
  {
    var m' := m[BITMAP_WORD + i := w];
    DataWordChanged(m, tlb, BITMAP_WORD + i, w);
    forall v | 0 <= v < PAGES ensures Pte(m', v) == Pte(m, v) {
    }
  }

  lemma TableWrite(m: Memory, tlb: Tlb, v: nat, w: Word)
    requires KernelMemory(m, tlb) && v < PAGES
    ensures var m' := m[TABLE_WORD + v := w];
      && (SelfMapped(m') && BitmapWindow(m') <==> KeepsWindows(v, w)) && Coherent(m', tlb, {v})
      && PageTableOf(m') == PageTableOf(m)[v := w]
      && BitmapOf(m') == BitmapOf(m) && SameElsewhere(m, m')
  {
    var m' := m[TABLE_WORD + v := w];
    OneEntryChanged(m, tlb, v, w);
    SelfMapKeptExactly(m, v, w);
    assert Pte(m', v) == w;
    forall u | 0 <= u < PAGES && u != v ensures Pte(m', u) == Pte(m, u) {
    }
  }

  /** The entry kernel_page_mmap writes: the frame number loses its upper bits to the shift. */
  function MappedEntry(phyPage: nat, flags: nat): (w: Word)
    requires flags < 0x100
    ensures w / 0x1000 == phyPage % 0x10_0000 && w % 0x1000 == flags
  {
    phyPage % 0x10_0000 * 0x1000 + flags
  }

  lemma ShiftOrFlags(phyPage: nat, flags: nat)
    requires flags < 0x100
    ensures Or(phyPage * 0x1000 % 0x1_0000_0000, flags) == MappedEntry(phyPage, flags)
  {
    assert phyPage * 0x1000 % 0x1_0000_0000 == phyPage % 0x10_0000 * 0x1000;
    OrFlags(phyPage % 0x10_0000, flags);
  }

  lemma MappedEntryFrame(p: nat, flags: nat)
    requires flags < 0x100
    ensures Entry(MappedEntry(p, flags)) == if flags % 2 == 1 then Some(p % PAGES) else None
  {
  }

  function VideoEntry(firstFrame: nat, i: nat): Word {
    MappedEntry(firstFrame + i, 7)
  }

  /** The table with the first n pages of the video window mapped. */
  function VideoMapped(pt: seq<Word>, firstFrame: nat, n: nat): (r: seq<Word>)
    requires |pt| == PAGES && n <= 0x800
    ensures |r| == PAGES
  {
    seq(PAGES, v requires 0 <= v < PAGES =>
      if 0xc1000 <= v < 0xc1000 + n then VideoEntry(firstFrame, v - 0xc1000) else pt[v])
  }

  lemma VideoMappedStep(pt: seq<Word>, firstFrame: nat, n: nat)
    requires |pt| == PAGES && n < 0x800
    ensures VideoMapped(pt, firstFrame, n + 1) ==
      VideoMapped(pt, firstFrame, n)[0xc1000 + n := VideoEntry(firstFrame, n)]
  {
  }

  /** The video window in addresses: 8 MiB from the framebuffer's page on, if they end below 4 GiB. */
  lemma VideoWindowShows(m: Memory, pt: seq<Word>, physBasePtr: Word)
    requires FlatDirectory(m) && |pt| == PAGES && PageTableOf(m) == VideoMapped(pt, physBasePtr / 0x1000, 0x800)
    requires physBasePtr / 0x1000 + 0x800 <= PAGES
    ensures Shows(m, 0xc100_0000, 0x80_0000, physBasePtr - physBasePtr % 0x1000)
  {
    var first := physBasePtr / 0x1000;
    forall v | 0xc1000 <= v < 0xc1800 ensures Entry(PageTableOf(m)[v]) == Some(v - 0xc1000 + first) {
      assert PageTableOf(m)[v] == VideoEntry(first, v - 0xc1000);
      MappedEntryFrame(first + (v - 0xc1000), 7);
    }
    PagesShow(m, 0xc1000, 0x800, first);
    assert physBasePtr - physBasePtr % 0x1000 == first * 0x1000;
  }

  lemma WordIndex(frame: nat, va: Word, word: nat)
    requires frame < PAGES && frame * 0x1000 + va % 0x1000 == 4 * word
    ensures frame * 0x400 + va % 0x1000 / 4 == word < PHYS_WORDS
  {
  }

  /** The bit search of alloc_4k_phys. */
  method FirstSetBit(w: Word) returns (bitPos: nat)
    requires w != 0
    ensures bitPos < 32 && Bit(w, bitPos) && Pow2(bitPos) < 0x1_0000_0000
    ensures forall j: nat :: j < bitPos ==> !Bit(w, j)
  {
    bitPos := 0;
    ghost var lowest := SomeBit(w);
    Pow2Values();
    MaskTest(w, bitPos);
    while And(w, Pow2(bitPos)) == 0
      invariant bitPos <= lowest < 32
      invariant And(w, Pow2(bitPos)) == 0 <==> !Bit(w, bitPos)
      decreases lowest - bitPos
    {
      bitPos := bitPos + 1;
      MaskTest(w, bitPos);
    }
    MaskInRange(bitPos);
  }

  class Kernel {
    const mem: array<Word>
    var tlb: Tlb
    var bitmapSize: nat
    var initialized: bool

    ghost predicate Valid()
      reads this, mem
    {
      && mem.Length == PHYS_WORDS
      && KernelMemory(mem[..], tlb)
      && bitmapSize <= BITMAP_WORDS
    }

    ghost function PageTable(): (pt: seq<Word>)
      requires mem.Length == PHYS_WORDS
      reads mem
      ensures |pt| == PAGES
    {
      PageTableOf(mem[..])
    }

    ghost function FreeSet(): set<nat>
      requires Valid()
      reads this, mem
    {
      FreeBelow(mem[..], 32 * bitmapSize)
    }

    /** Loading CR3 empties the TLB. */
    constructor (mem: array<Word>)
      requires mem.Length == PHYS_WORDS
      requires SelfMapped(mem[..]) && BitmapWindow(mem[..])
      ensures Valid() && this.mem == mem && FreeSet() == {} && !initialized && bitmapSize == 0
    {
      this.mem := mem;
      tlb := map[];
      bitmapSize := 0;
      initialized := false;
    }

    // -------------------------------------------------------------- processor

    /** The processor walks any pages it likes into the TLB and drops any others. */
    method TlbActivity(ghost stale: set<nat>)
      requires mem.Length == PHYS_WORDS && Coherent(mem[..], tlb, stale)
      modifies this`tlb
      ensures Coherent(mem[..], tlb, stale)
    {
      var fills: set<nat> := *;
      var drops: set<nat> := *;
      RefillKeepsCoherence(mem[..], tlb, stale, drops, fills);
      tlb := Refilled(mem[..], tlb, drops, fills);
    }

    method Invlpg(va: Word)
      modifies this`tlb
      ensures tlb == old(tlb) - {va / 0x1000}
    {
      tlb := tlb - {va / 0x1000};
    }

    /** The frame behind a page, as the processor finds it: the TLB first, then the walk. */
    method FrameOf(page: nat) returns (frame: nat)
      requires Valid() && page < PAGES && Walk(mem[..], page).Some?
      modifies this`tlb
      ensures Valid() && frame == Walk(mem[..], page).value
    {
      TlbActivity({});
      if page in tlb {
        frame := tlb[page];
      } else {
        frame := Walk(mem[..], page).value;
      }
    }

    /** A 32-bit load; `word` is the physical word the address stands for. */
    method Load(va: Word, ghost word: nat) returns (w: Word)
      requires Valid() && Translate(mem[..], va) == Some(4 * word)
      modifies this`tlb
      ensures Valid() && word < PHYS_WORDS && w == mem[word]
    {
      var frame := FrameOf(va / 0x1000);
      WordIndex(frame, va, word);
      w := mem[frame * 0x400 + va % 0x1000 / 4];
    }

    method Store(va: Word, w: Word, ghost word: nat)
      requires Valid() && Translate(mem[..], va) == Some(4 * word)
      modifies mem, this`tlb
      ensures word < PHYS_WORDS && mem[..] == old(mem[..])[word := w]
      ensures Coherent(old(mem[..]), tlb, {})
    {
      var frame := FrameOf(va / 0x1000);
      WordIndex(frame, va, word);
      mem[frame * 0x400 + va % 0x1000 / 4] := w;
    }

    // -------------------------------------------------------------- mapping

    /** kernel_page_mmap: one entry of the flat table changes, nothing else does. Nothing keeps
        a caller from editing the windows; then the kernel loses its view. */
    method PageMmap(phyPage: nat, vpage: nat, flags: nat)
      requires Valid() && phyPage < 0x1_0000_0000 && flags < 0x100 && vpage < PAGES
      modifies mem, this`tlb
      ensures Valid() <==> KeepsWindows(vpage, MappedEntry(phyPage, flags))
      ensures Coherent(mem[..], tlb, {})
      ensures PageTable() == old(PageTable())[vpage := MappedEntry(phyPage, flags)]
      ensures BitmapOf(mem[..]) == old(BitmapOf(mem[..])) && (Valid() ==> FreeSet() == old(FreeSet()))
      ensures SameElsewhere(old(mem[..]), mem[..])
    {
      ghost var m0: Memory := mem[..];
      ghost var entry := MappedEntry(phyPage, flags);
      ShiftOrFlags(phyPage, flags);
      TableWrite(m0, tlb, vpage, entry);
      SameBitmapSameFrames(m0, m0[TABLE_WORD + vpage := entry], 32 * bitmapSize);
      SetEntry(vpage, Or(phyPage * 0x1000 % 0x1_0000_0000, flags));
    }

    /** kernel_page_unmap */
    method PageUnmap(vpage: nat)
      requires Valid() && vpage < PAGES
      modifies mem, this`tlb
      ensures Valid() <==> !WindowPage(vpage)
      ensures Coherent(mem[..], tlb, {})
      ensures PageTable() == old(PageTable())[vpage := 0]
      ensures BitmapOf(mem[..]) == old(BitmapOf(mem[..])) && (Valid() ==> FreeSet() == old(FreeSet()))
      ensures SameElsewhere(old(mem[..]), mem[..])
    {
      ghost var m0: Memory := mem[..];
      TableWrite(m0, tlb, vpage, 0);
      SameBitmapSameFrames(m0, m0[TABLE_WORD + vpage := 0], 32 * bitmapSize);
      SetEntry(vpage, 0);
    }

    /** The store through the window and the `invlpg` that both of them consist of, with TLB
        activity before, between and after the two instructions. */
    method SetEntry(vpage: nat, entry: Word)
      requires Valid() && vpage < PAGES
      modifies mem, this`tlb
      ensures Valid() <==> KeepsWindows(vpage, entry)
      ensures Coherent(mem[..], tlb, {})
      ensures mem[..] == old(mem[..])[TABLE_WORD + vpage := entry]
    {
      ghost var m0: Memory := mem[..];
      SelfMap(m0, vpage);
      Store(PAGE_TABLE_VBASE + 4 * vpage, entry, TABLE_WORD + vpage);
      ghost var m1: Memory := mem[..];
      assert m1 == m0[TABLE_WORD + vpage := entry];
      TableWrite(m0, tlb, vpage, entry);
      TlbActivity({vpage});
      DropStale(m1, tlb, vpage);
      Invlpg(vpage * 0x1000);
      TlbActivity({});
    }

    // -------------------------------------------------------------- bitmap words

    method ReadBitmap(i: nat) returns (w: Word)
      requires Valid() && i < BITMAP_WORDS
      modifies this`tlb
      ensures Valid() && w == mem[BITMAP_WORD + i]
    {
      BitmapWordAddress(mem[..], i);
      w := Load(PHY_MEM_BITMAP_BASE + 4 * i, BITMAP_WORD + i);
    }

    method WriteBitmap(i: nat, w: Word)
      requires Valid() && i < BITMAP_WORDS
      modifies mem, this`tlb
      ensures Valid() && mem[..] == old(mem[..])[BITMAP_WORD + i := w]
      ensures OnlyBitmap(old(mem[..]), mem[..])
    {
      BitmapWordAddress(mem[..], i);
      ghost var m0: Memory := mem[..];
      Store(PHY_MEM_BITMAP_BASE + 4 * i, w, BITMAP_WORD + i);
      BitmapWrite(m0, tlb, i, w);
    }

    // -------------------------------------------------------------- memory manager

    /** alloc_4k_phys: the lowest free frame, or 0. */
    method Alloc4kPhys() returns (addr: Word)
      requires Valid()
      modifies mem, this`tlb
      ensures Valid()
      ensures addr == AllocAddress(old(FreeSet())) && FreeSet() == AfterAlloc(old(FreeSet()))
      ensures old(FreeSet()) == {} ==> addr == 0 && FreeSet() == {}
      ensures old(FreeSet()) != {} ==> LowestTaken(old(FreeSet()), FreeSet(), addr)
      ensures old(FreeSet()) == {} ==> mem[..] == old(mem[..])
      ensures old(FreeSet()) != {} ==> mem[..] == Taken(old(mem[..]), Lowest(old(FreeSet())).value)
      ensures OnlyBitmap(old(mem[..]), mem[..])
    {
      ghost var m0: Memory := mem[..];
      var i := 0;
      while i < bitmapSize
        invariant i <= bitmapSize == old(bitmapSize)
        invariant Valid() && mem[..] == m0
        invariant forall p: nat :: p < 32 * i ==> !FrameBit(m0, p)
      {
        var w := ReadBitmap(i);
        if w != 0 {
          addr := TakeFrom(i, w);
          return;
        }
        SkipZeroWord(m0, i);
        i := i + 1;
      }
      assert FreeSet() == {};
      addr := 0;
    }

    /** The branch of alloc_4k_phys for the first word that is not 0. */
    method TakeFrom(i: nat, w: Word) returns (addr: Word)
      requires Valid() && i < bitmapSize && w == mem[BITMAP_WORD + i] != 0
      requires forall p: nat :: p < 32 * i ==> !FrameBit(mem[..], p)
      modifies mem, this`tlb
      ensures Valid() && old(FreeSet()) != {}
      ensures addr == AllocAddress(old(FreeSet())) && FreeSet() == AfterAlloc(old(FreeSet()))
      ensures LowestTaken(old(FreeSet()), FreeSet(), addr)
      ensures mem[..] == Taken(old(mem[..]), Lowest(old(FreeSet())).value)
      ensures OnlyBitmap(old(mem[..]), mem[..])
    {
      addr := i * 0x1000 * 32 % 0x1_0000_0000;
      var bitPos := FirstSetBit(w);
      addr := (addr + bitPos * 0x1000) % 0x1_0000_0000;
      TakeLowest(mem[..], bitmapSize, i, bitPos);
      WriteBitmap(i, And(w, Not(Pow2(bitPos))));
      AllocationOf(old(FreeSet()), 32 * i + bitPos);
    }

    /** free_4k_phys. It checks no bounds: the caller passes an address the bitmap covers. */
    method Free4kPhys(addr: Word)
      requires Valid() && addr / 0x1000 / 32 < bitmapSize
      modifies mem, this`tlb
      ensures Valid()
      ensures mem[..] == Released(old(mem[..]), addr / 0x1000)
      ensures FreeSet() == old(FreeSet()) + {addr / 0x1000}
      ensures OnlyBitmap(old(mem[..]), mem[..])
    {
      var pageIndex := addr / 0x1000;
      var mapIndex := pageIndex / 32;
      var bitPos := pageIndex % 32;
      MaskInRange(bitPos);
      OrIntoBitmap(mapIndex, Pow2(bitPos), pageIndex);
    }

    /** get_free_page_num */
    method GetFreePageNum() returns (freeNum: nat)
      requires Valid()
      modifies this`tlb
      ensures Valid() && freeNum == |FreeSet()| && freeNum < 0x1_0000_0000_0000_0000
    {
      ghost var m0: Memory := mem[..];
      freeNum := 0;
      var i := 0;
      while i < bitmapSize
        invariant i <= bitmapSize == old(bitmapSize)
        invariant Valid() && mem[..] == m0
        invariant freeNum == |FreeBelow(m0, 32 * i)| <= 32 * i
      {
        var tmp := ReadBitmap(i);
        ghost var word := tmp;
        var j := 0;
        while j < 32
          invariant j <= 32 && Valid() && mem[..] == m0
          invariant forall k: nat :: Bit(tmp, k) <==> Bit(word, j + k)
          invariant freeNum == |FreeBelow(m0, 32 * i + j)| <= 32 * i + j
        {
          FreeBelowStep(m0, 32 * i + j);
          assert Bit(tmp, 0) <==> Bit(word, j + 0);
          if tmp % 2 == 1 {
            freeNum := freeNum + 1;
          }
          forall k: nat ensures Bit(tmp / 2, k) <==> Bit(word, (j + 1) + k) {
            assert Bit(tmp, k + 1) <==> Bit(word, j + (k + 1));
          }
          tmp := tmp / 2;
          j := j + 1;
        }
        i := i + 1;
      }
    }

    /** page_fault: a not-present fault gets a frame, whatever the allocator returned. */
    method PageFault(addr: Word, err: Word)
      requires Valid()
      requires err % 2 == 0 ==> Walk(mem[..], addr / 0x1000) == None
      modifies mem, this`tlb
      ensures Valid() && SameElsewhere(old(mem[..]), mem[..])
      ensures err % 2 == 1 ==> mem[..] == old(mem[..])
      ensures err % 2 == 0 ==>
        && PageTable() == old(PageTable())[addr / 0x1000 := MappedEntry(AllocAddress(old(FreeSet())) / 0x1000, 7)]
        && FreeSet() == AfterAlloc(old(FreeSet()))
        && PageTable()[addr / 0x1000] % 0x1000 == 7
    {
      if err % 2 == 0 {
        WalkIsFlat(mem[..], addr / 0x1000);
        assert !WindowPage(addr / 0x1000);
        var newPage := Alloc4kPhys();
        OnlyBitmapKeepsTable(old(mem[..]), mem[..]);
        PageMmap(newPage / 0x1000, addr / 0x1000, 7);
      }
    }

    // -------------------------------------------------------------- display_init

    /** The mapping loop of display_init: 8 MiB of video memory at 0xc1000000. */
    method MapVideoMemory(physBasePtr: Word)
      requires Valid()
      modifies mem, this`tlb
      ensures Valid() && FreeSet() == old(FreeSet()) && SameElsewhere(old(mem[..]), mem[..])
      ensures PageTable() == VideoMapped(old(PageTable()), physBasePtr / 0x1000, 0x800)
      ensures physBasePtr - physBasePtr % 0x1000 + 0x80_0000 <= 0x1_0000_0000 ==>
        Shows(mem[..], 0xc100_0000, 0x80_0000, physBasePtr - physBasePtr % 0x1000)
      ensures forall v :: 0 <= v < PAGES ==>
        if 0xc1000 <= v < 0xc1800 then PageTable()[v] % 0x1000 == 7 else PageTable()[v] == old(PageTable()[v])
    {
      ghost var pt0 := PageTable();
      assert PageTable() == VideoMapped(pt0, physBasePtr / 0x1000, 0);
      var i := 0;
      while i < 0x80_0000 / 0x1000
        invariant 0 <= i <= 0x800 && Valid() && FreeSet() == old(FreeSet())
        invariant SameElsewhere(old(mem[..]), mem[..])
        invariant PageTable() == VideoMapped(pt0, physBasePtr / 0x1000, i)
      {
        VideoMappedStep(pt0, physBasePtr / 0x1000, i);
        PageMmap(physBasePtr / 0x1000 + i, 0xc100_0000 / 0x1000 + i, 7);
        i := i + 1;
      }
      if physBasePtr / 0x1000 + 0x800 <= PAGES { VideoWindowShows(mem[..], pt0, physBasePtr); }
    }

    // -------------------------------------------------------------- mm_init

    method GrowBitmap(mapIndex: nat)
      requires Valid() && mapIndex < BITMAP_WORDS
      modifies mem, this`tlb, this`bitmapSize
      ensures Valid() && bitmapSize == if mapIndex < old(bitmapSize) then old(bitmapSize) else mapIndex + 1
      ensures FreeSet() == old(FreeSet())
      ensures OnlyBitmap(old(mem[..]), mem[..])
    {
      ghost var free := FreeSet();
      while mapIndex >= bitmapSize
        invariant Valid() && FreeSet() == free
        invariant old(bitmapSize) <= bitmapSize <= if mapIndex < old(bitmapSize) then old(bitmapSize) else mapIndex + 1
        invariant OnlyBitmap(old(mem[..]), mem[..])
        decreases mapIndex - bitmapSize
      {
        AppendZeroWord(mem[..], bitmapSize);
        WriteBitmap(bitmapSize, 0);
        bitmapSize := bitmapSize + 1;
      }
    }

    /** One turn of the inner loop of mm_init, for the page at `addr`. */
    method MarkPage(addr: nat, kind: nat)
      requires Valid() && addr + 0x1000 <= BITMAP_LIMIT
      modifies mem, this`tlb, this`bitmapSize
      ensures Valid() && OnlyBitmap(old(mem[..]), mem[..])
      ensures forall p :: p in FreeSet() <==>
        p in old(FreeSet()) || (p == addr / 0x1000 && kind == 1 && addr >= USABLE_PHY_ADDR_BASE)
    {
      var pageIndex := addr / 0x1000 % 0x1_0000_0000;
      var mapIndex := pageIndex / 32;
      var bitPos := pageIndex % 32;
      GrowBitmap(mapIndex);
      MaskInRange(bitPos);
      var mask := if kind == 1 && addr >= USABLE_PHY_ADDR_BASE then Pow2(bitPos) else 0;
      OrIntoBitmap(mapIndex, mask, pageIndex);
    }

    /** `physMemBitmap[mapIndex] |= mask`, the mask being 0 or the bit of frame p. */
    method OrIntoBitmap(mapIndex: nat, mask: Word, ghost p: nat)
      requires Valid() && mapIndex < bitmapSize && p / 32 == mapIndex
      requires mask == 0 || mask == Pow2(p % 32)
      modifies mem, this`tlb
      ensures Valid() && OnlyBitmap(old(mem[..]), mem[..])
      ensures mem[..] == if mask == 0 then old(mem[..]) else Released(old(mem[..]), p)
      ensures FreeSet() == if mask == 0 then old(FreeSet()) else old(FreeSet()) + {p}
    {
      var w := ReadBitmap(mapIndex);
      MaskFrame(mem[..], 32 * bitmapSize, p, mask);
      WriteBitmap(mapIndex, Or(w, mask));
    }

    /** The inner loop of mm_init. */
    method WalkSpan(start: nat, length: nat, kind: nat)
      requires Valid() && start + length <= BITMAP_LIMIT
      modifies mem, this`tlb, this`bitmapSize
      ensures Valid() && OnlyBitmap(old(mem[..]), mem[..])
      ensures forall p :: p in FreeSet() <==>
        p in old(FreeSet()) || (kind == 1 && p >= 0x800 && start / 0x1000 <= p < start / 0x1000 + length / 0x1000)
    {
      var addr, size := start, length;
      ghost var first := start / 0x1000;
      ghost var done: nat := 0;
      while size >= 0x1000
        invariant Valid() && 0 <= addr && 0 <= size && addr + size == start + length
        invariant addr == start + 0x1000 * done
        invariant forall p :: p in FreeSet() <==>
          p in old(FreeSet()) || (kind == 1 && p >= 0x800 && first <= p < first + done)
        invariant OnlyBitmap(old(mem[..]), mem[..])
      {
        PageNumber(start, done);
        MarkPage(addr, kind);
        addr := (addr + 0x1000) % 0x1_0000_0000_0000_0000;
        size := size - 0x1000;
        done := done + 1;
      }
    }

    /** The outer loop body of mm_init. */
    method AddRegion(r: Region)
      requires Valid() && Acceptable(r)
      modifies mem, this`tlb, this`bitmapSize
      ensures Valid() && OnlyBitmap(old(mem[..]), mem[..])
      ensures forall p :: p in FreeSet() <==> p in old(FreeSet()) || MarkedBy(r, p)
    {
      var addr: int := r.addr;
      var size: int := r.size;
      if addr % 0x1000 != 0 {
        var newAddr: int := addr % 0x1000 + 0x1000;
        if (newAddr - addr) % 0x1_0000_0000_0000_0000 >= size {
          return;
        }
        size := size - (newAddr - addr) % 0x1_0000_0000_0000_0000;
        addr := newAddr;
      }
      assert Walked(r) == Some(Span(addr, size));
      WalkSpan(addr, size, r.kind);
    }

    lemma FreeByMap(regions: seq<Region>)
      ensures (forall i :: 0 <= i < |regions| ==> WellFormed(regions[i])) ==>
        forall p: nat :: Marked(regions, p) ==> UsableByMap(regions, p)
      ensures (forall i :: 0 <= i < |regions| ==> regions[i].addr % 0x1000 == 0) ==>
        forall p: nat :: UsableByMap(regions, p) <==> Marked(regions, p)
    {
      forall p: nat
        ensures (forall i :: 0 <= i < |regions| ==> WellFormed(regions[i])) && Marked(regions, p) ==>
          UsableByMap(regions, p)
        ensures (forall i :: 0 <= i < |regions| ==> regions[i].addr % 0x1000 == 0) ==>
          (Marked(regions, p) <==> UsableByMap(regions, p))
      {
        MapInBytes(regions, p);
      }
    }

    /** mm_init: drops the two temporary mappings and frees exactly the marked pages. */
    method MmInit(regions: seq<Region>)
      requires Valid() && (initialized || bitmapSize == 0)
      requires forall i :: 0 <= i < |regions| ==> Acceptable(regions[i])
      modifies mem, this
      ensures Valid() && initialized && SameElsewhere(old(mem[..]), mem[..])
      ensures old(initialized) ==> mem[..] == old(mem[..]) && bitmapSize == old(bitmapSize)
      ensures !old(initialized) ==>
        && PageTable() == old(PageTable())[0x8 := 0][0x10 := 0]
        && forall p :: p in FreeSet() <==> Marked(regions, p)
      ensures !old(initialized) && (forall i :: 0 <= i < |regions| ==> WellFormed(regions[i])) ==>
        forall p :: p in FreeSet() ==> UsableByMap(regions, p)
      ensures !old(initialized) && (forall i :: 0 <= i < |regions| ==> regions[i].addr % 0x1000 == 0) ==>
        forall p :: p in FreeSet() <==> UsableByMap(regions, p)
    {
      if initialized {
        return;
      }
      FreeByMap(regions);
      PageUnmap(0x8);
      PageUnmap(0x10);
      ghost var m0: Memory := mem[..];
      var i := 0;
      while i < |regions|
        invariant i <= |regions| && Valid() && !initialized
        invariant OnlyBitmap(m0, mem[..])
        invariant forall p :: p in FreeSet() <==> Marked(regions[..i], p)
      {
        MarkedStep(regions, i);
        AddRegion(regions[i]);
        i := i + 1;
      }
      OnlyBitmapKeepsTable(m0, mem[..]);
      assert regions[..i] == regions;
      initialized := true;
    }
  }
}
