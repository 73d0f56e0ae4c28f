/**
 32-bit paging (Intel SDM volume 3A, section 4.3) over a 4 GiB physical memory of
 words, the kernel's flat page table and the window through which it is edited.
 */
module Paging {
  import opened Words
  import opened Wrappers

  const PAGES: nat := 0x10_0000
  const PHYS_WORDS: nat := 0x4000_0000

  const PAGE_DIRECTORY_BASE: nat := 0x001f_f000
  const PAGE_TABLE_BASE: nat := 0x0020_0000
  const PAGE_DIR_VBASE: nat := 0xffbf_f000
  const PAGE_TABLE_VBASE: nat := 0xffc0_0000
  const PHY_MEM_BITMAP_BASE: nat := 0xc060_0000

  // Word indices of the page directory, the page table and the frame bitmap
  const DIR_WORD: nat := 0x7_fc00
  const TABLE_WORD: nat := 0x8_0000
  const BITMAP_WORD: nat := 0x18_0000
  const BITMAP_WORDS: nat := 0x8_0000

  // Virtual page numbers of the three windows
  const TABLE_WINDOW: nat := 0xffbff
  const BITMAP_WINDOW: nat := 0xc0600

  type Memory = m: seq<Word> | |m| == PHYS_WORDS witness seq(PHYS_WORDS, (i: nat) => 0 as Word)

  /** The frame a directory or table entry points to, if it is present. */
  function Entry(w: Word): Option<nat> {
    if w % 2 == 1 then Some(w / 0x1000) else None
  }

  /** The two-level walk of virtual page `page`; CR3 holds PAGE_DIRECTORY_BASE. */
  function Walk(m: Memory, page: nat): Option<nat>
    requires page < PAGES
  {
    match Entry(m[PAGE_DIRECTORY_BASE / 4 + page / 0x400])
    case None => None
    case Some(table) => Entry(m[table * 0x400 + page % 0x400])
  }

  /** The physical address behind a virtual one. */
  function Translate(m: Memory, va: Word): Option<nat> {
    match Walk(m, va / 0x1000)
    case None => None
    case Some(frame) => Some(frame * 0x1000 + va % 0x1000)
  }

  /** The page table seen as one flat array of entries. */
  function PageTableOf(m: Memory): (pt: seq<Word>) {
    m[TABLE_WORD..BITMAP_WORD]
  }

  /** Entry v of the flat table. */
  function Pte(m: Memory, v: nat): Word
    requires v < PAGES
  {
    m[TABLE_WORD + v]
  }

  function DirectoryEntry(d: nat): Word
    requires d < 0x400
  {
    (0x200 + d) * 0x1000 + 7
  }

  ghost predicate FlatDirectory(m: Memory) {
    forall d :: 0 <= d < 0x400 ==> m[DIR_WORD + d] == DirectoryEntry(d)
  }

  /** Pages 0xffbff..0xfffff show the directory and the table. */
  ghost predicate TableWindow(m: Memory) {
    forall v :: TABLE_WINDOW <= v < PAGES ==> Entry(Pte(m, v)) == Some(v - 0xffa00)
  }

  /** Pages 0xc0600..0xc07ff show the frame bitmap. */
  ghost predicate BitmapWindow(m: Memory) {
    forall v :: BITMAP_WINDOW <= v < BITMAP_WINDOW + 0x200 ==> Entry(Pte(m, v)) == Some(v - 0xc0000)
  }

  ghost predicate SelfMapped(m: Memory) {
    FlatDirectory(m) && TableWindow(m)
  }

  /** With the flat directory, the walk is one look-up in the flat table. */
  lemma WalkIsFlat(m: Memory, page: nat)
    requires FlatDirectory(m) && page < PAGES
    ensures Walk(m, page) == Entry(Pte(m, page))
    ensures PageTableOf(m)[page] == Pte(m, page)
  {
    var d := page / 0x400;
    assert m[DIR_WORD + d] == DirectoryEntry(d);
    DirectoryEntryFrame(d);
    assert (0x200 + d) * 0x400 + page % 0x400 == TABLE_WORD + page;
  }

  lemma DirectoryEntryFrame(d: nat)
    requires d < 0x400
    ensures Entry(DirectoryEntry(d)) == Some(0x200 + d)
  {
  }

  /** The `size` bytes from virtual address `va` on are those from physical address `pa` on. */
  ghost predicate Shows(m: Memory, va: nat, size: nat, pa: nat) {
    forall a: Word :: va <= a < va + size ==> Translate(m, a) == Some(a - va + pa)
  }

  /** No page between two virtual addresses is present. */
  ghost predicate NothingAt(m: Memory, from: nat, to: nat) {
    forall a: Word :: from <= a < to ==> Translate(m, a) == None
  }

  /** Consecutive entries of the flat table, seen as addresses. */
  lemma PagesShow(m: Memory, first: nat, count: nat, frame: nat)
    requires FlatDirectory(m) && first + count <= PAGES
    requires forall v :: first <= v < first + count ==> Entry(PageTableOf(m)[v]) == Some(v - first + frame)
    ensures Shows(m, first * 0x1000, count * 0x1000, frame * 0x1000)
  {
    forall a: Word | first * 0x1000 <= a < first * 0x1000 + count * 0x1000
      ensures Translate(m, a) == Some(a - first * 0x1000 + frame * 0x1000)
    {
      WalkIsFlat(m, a / 0x1000);
    }
  }

  lemma PagesAbsent(m: Memory, first: nat, end: nat)
    requires FlatDirectory(m) && first <= end <= PAGES
    requires forall v :: first <= v < end ==> Entry(PageTableOf(m)[v]) == None
    ensures NothingAt(m, first * 0x1000, end * 0x1000)
  {
    forall a: Word | first * 0x1000 <= a < end * 0x1000 ensures Translate(m, a) == None {
      WalkIsFlat(m, a / 0x1000);
    }
  }

  /** Byte 4i of a window that starts at page `first`. */
  lemma WindowAddress(first: nat, i: nat)
    ensures (first * 0x1000 + 4 * i) / 0x1000 == first + i / 0x400
    ensures (first * 0x1000 + 4 * i) % 0x1000 == 4 * (i % 0x400)
  {
    assert first * 0x1000 + 4 * i == 0x1000 * (first + i / 0x400) + 4 * (i % 0x400);
  }

  /** The refinement at the heart of the design: the entry of page v is read by the walk
      at 0x200000 + 4v, and virtual address 0xffc00000 + 4v is exactly that location. */
  lemma SelfMap(m: Memory, v: nat)
    requires SelfMapped(m) && v < PAGES
    ensures Walk(m, v) == Entry(m[(PAGE_TABLE_BASE + 4 * v) / 4])
    ensures Translate(m, PAGE_TABLE_VBASE + 4 * v) == Some(PAGE_TABLE_BASE + 4 * v)
  {
    WalkIsFlat(m, v);
    WindowAddress(0xffc00, v);
    WalkIsFlat(m, 0xffc00 + v / 0x400);
  }

  /** The page directory is visible at 0xffbff000. */
  lemma DirectoryWindow(m: Memory, d: nat)
    requires SelfMapped(m) && d < 0x400
    ensures Translate(m, PAGE_DIR_VBASE + 4 * d) == Some(PAGE_DIRECTORY_BASE + 4 * d)
  {
    WindowAddress(TABLE_WINDOW, d);
    WalkIsFlat(m, TABLE_WINDOW);
  }

  /** The bitmap window, word by word. */
  lemma BitmapWordAddress(m: Memory, i: nat)
    requires FlatDirectory(m) && BitmapWindow(m) && i < BITMAP_WORDS
    ensures Translate(m, PHY_MEM_BITMAP_BASE + 4 * i) == Some(4 * (BITMAP_WORD + i))
  {
    WindowAddress(BITMAP_WINDOW, i);
    WalkIsFlat(m, BITMAP_WINDOW + i / 0x400);
  }

  /** Editing entry v keeps the self-map exactly when v lies below the window, or the new
      entry leaves v's translation as it is. */
  lemma SelfMapKeptExactly(m: Memory, v: nat, w: Word)
    requires SelfMapped(m) && v < PAGES
    ensures SelfMapped(m[TABLE_WORD + v := w]) <==> v < TABLE_WINDOW || Entry(w) == Some(v - 0xffa00)
  {
    var m' := m[TABLE_WORD + v := w];
    assert FlatDirectory(m');
    assert Pte(m', v) == w;
    if v < TABLE_WINDOW || Entry(w) == Some(v - 0xffa00) {
      forall u | TABLE_WINDOW <= u < PAGES ensures Entry(Pte(m', u)) == Some(u - 0xffa00) {
        if u != v { assert Pte(m', u) == Pte(m, u); }
      }
    }
  }

  /** Updating one word of the table region is updating one entry of the flat table. */
  lemma TableUpdate(m: Memory, v: nat, w: Word)
    requires v < PAGES
    ensures PageTableOf(m[TABLE_WORD + v := w]) == PageTableOf(m)[v := w]
  {
  }

  // ---------------------------------------------------------------- TLB

  /** Cached translations: virtual page to frame. */
  type Tlb = map<nat, nat>

  /** Every cached translation, but for the pages in `stale`, is what a walk gives now. */
  ghost predicate Coherent(m: Memory, tlb: Tlb, stale: set<nat>) {
    forall p :: p in tlb && p !in stale ==> p < PAGES && Walk(m, p) == Some(tlb[p])
  }

  /** The TLB after the processor dropped some pages and walked others into it, as it likes. */
  function Refilled(m: Memory, tlb: Tlb, drops: set<nat>, fills: set<nat>): Tlb {
    (tlb - drops) + map p: nat | p in fills && p < PAGES && Walk(m, p).Some? :: Walk(m, p).value
  }

  lemma RefillKeepsCoherence(m: Memory, tlb: Tlb, stale: set<nat>, drops: set<nat>, fills: set<nat>)
    requires Coherent(m, tlb, stale)
    ensures Coherent(m, Refilled(m, tlb, drops, fills), stale)
  {
  }

  /** One entry of the flat table changed: only that page can have become stale. */
  lemma OneEntryChanged(m: Memory, tlb: Tlb, v: nat, w: Word)
    requires FlatDirectory(m) && v < PAGES
    requires Coherent(m, tlb, {})
    ensures FlatDirectory(m[TABLE_WORD + v := w])
    ensures Coherent(m[TABLE_WORD + v := w], tlb, {v})
  {
    var m' := m[TABLE_WORD + v := w];
    assert FlatDirectory(m');
    forall p | p in tlb && p != v ensures p < PAGES && Walk(m', p) == Some(tlb[p]) {
      WalkIsFlat(m, p);
      WalkIsFlat(m', p);
    }
  }

  /** A word outside directory and table changed: no translation changed. */
  lemma DataWordChanged(m: Memory, tlb: Tlb, i: nat, w: Word)
    requires FlatDirectory(m) && i < PHYS_WORDS && !(DIR_WORD <= i < BITMAP_WORD)
    requires Coherent(m, tlb, {})
    ensures FlatDirectory(m[i := w]) && Coherent(m[i := w], tlb, {})
    ensures PageTableOf(m[i := w]) == PageTableOf(m)
  {
    var m' := m[i := w];
    assert FlatDirectory(m');
    forall p | p in tlb ensures p < PAGES && Walk(m', p) == Some(tlb[p]) {
      WalkIsFlat(m, p);
      WalkIsFlat(m', p);
    }
  }

  /** Invalidating the stale page restores coherence. */
  lemma DropStale(m: Memory, tlb: Tlb, v: nat)
    requires Coherent(m, tlb, {v})
    ensures Coherent(m, tlb - {v}, {})
    ensures v * 0x1000 / 0x1000 == v
  {
  }

  /** One store and one `invlpg` are enough, whatever the processor caches before, between and
      after them: every cached translation agrees with the walk of the edited table. */
  lemma EditKeepsCoherence(m: Memory, tlb: Tlb, v: nat, w: Word, drops: seq<set<nat>>, fills: seq<set<nat>>)
    requires FlatDirectory(m) && v < PAGES && Coherent(m, tlb, {})
    requires |drops| == 3 && |fills| == 3
    ensures var m' := m[TABLE_WORD + v := w];
      var stored := Refilled(m', Refilled(m, tlb, drops[0], fills[0]), drops[1], fills[1]);
      Coherent(m', Refilled(m', stored - {v}, drops[2], fills[2]), {})
  {
    var m' := m[TABLE_WORD + v := w];
    var before := Refilled(m, tlb, drops[0], fills[0]);
    RefillKeepsCoherence(m, tlb, {}, drops[0], fills[0]);
    OneEntryChanged(m, before, v, w);
    RefillKeepsCoherence(m', before, {v}, drops[1], fills[1]);
    var stored := Refilled(m', before, drops[1], fills[1]);
    DropStale(m', stored, v);
    RefillKeepsCoherence(m', stored - {v}, {}, drops[2], fills[2]);
  }

  /** When the one changed page had a cached, present translation to another frame, skipping
      `invlpg` does leave the cache wrong: the invalidation is needed. */
  lemma StaleWithoutInvalidation(m: Memory, tlb: Tlb, v: nat, w: Word)
    requires FlatDirectory(m) && v < PAGES && v in tlb
    requires Coherent(m, tlb, {})
    ensures Coherent(m[TABLE_WORD + v := w], tlb, {}) <==> Entry(w) == Walk(m, v)
  {
    OneEntryChanged(m, tlb, v, w);
    WalkIsFlat(m[TABLE_WORD + v := w], v);
  }
}
