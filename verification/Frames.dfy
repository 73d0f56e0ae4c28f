/** The bitmap of free frames, its set reading, and what allocation does to it. */
module Frames {
  import opened Words
  import opened Wrappers
  import opened Paging

  const BITMAP_FRAMES: nat := 0x100_0000 // 32 bits in each of BITMAP_WORDS words

  function BitmapOf(m: Memory): seq<Word> {
    m[BITMAP_WORD..BITMAP_WORD + BITMAP_WORDS]
  }

  predicate FrameBit(m: Memory, p: nat)
    requires p < BITMAP_FRAMES
  {
    Bit(m[BITMAP_WORD + p / 32], p % 32)
  }

  /** The free frames below n. */
  ghost function FreeBelow(m: Memory, n: nat): set<nat>
    requires n <= BITMAP_FRAMES
  {
    set p: nat | p < n && FrameBit(m, p)
  }

  lemma FreeBelowStep(m: Memory, n: nat)
    requires n < BITMAP_FRAMES
    ensures |FreeBelow(m, n + 1)| == |FreeBelow(m, n)| + (if FrameBit(m, n) then 1 else 0)
  {
    assert FreeBelow(m, n + 1) == if FrameBit(m, n) then FreeBelow(m, n) + {n} else FreeBelow(m, n);
  }

  /** The least element, if there is one. */
  ghost function Lowest(free: set<nat>): (r: Option<nat>)
    ensures r == None <==> free == {}
    ensures r.Some? ==> r.value in free && forall p :: p in free ==> r.value <= p
    decreases |free|
  {
    if free == {} then None
    else
      var x :| x in free;
      match Lowest(free - {x})
      case None => assert free == {x}; Some(x)
      case Some(y) => assert free == (free - {x}) + {x}; if x < y then Some(x) else Some(y)
  }

  lemma LowestIs(free: set<nat>, f: nat)
    requires f in free && forall p :: p in free ==> f <= p
    ensures Lowest(free) == Some(f)
  {
  }

  /** What alloc_4k_phys returns, as a 32-bit address, and what it leaves free. */
  ghost function AllocAddress(free: set<nat>): Word {
    match Lowest(free)
    case None => 0
    case Some(f) => f * 0x1000 % 0x1_0000_0000
  }

  ghost function AfterAlloc(free: set<nat>): set<nat> {
    match Lowest(free)
    case None => free
    case Some(f) => free - {f}
  }

  /** Exactly the least frame has left the free set, and its address was given out. */
  ghost predicate LowestTaken(free: set<nat>, free': set<nat>, addr: Word) {
    exists f ::
      f in free && (forall p :: p in free ==> f <= p) &&
      free' == free - {f} && addr == f * 0x1000 % 0x1_0000_0000
  }

  /** The 32-bit address is the frame's own address exactly for frames below 4 GiB. */
  lemma AllocAddressExact(free: set<nat>)
    requires free != {}
    ensures AllocAddress(free) == Lowest(free).value * 0x1000 <==> Lowest(free).value < PAGES
  {
  }

  /** NULL means out of memory exactly when no free frame sits at a multiple of 4 GiB that
      is about to be handed out; below 4 GiB that is the same as frame 0 not being free. */
  lemma NullExact(free: set<nat>)
    ensures (AllocAddress(free) == 0 <==> free == {}) <==> (free == {} || Lowest(free).value % PAGES != 0)
  {
  }

  /** Physical memory with the bit of frame p set. */
  function Released(m: Memory, p: nat): Memory
    requires p < BITMAP_FRAMES
  {
    m[BITMAP_WORD + p / 32 := SetBit(m[BITMAP_WORD + p / 32], p % 32)]
  }

  /** Physical memory with the bit of frame p cleared. */
  function Taken(m: Memory, p: nat): Memory
    requires p < BITMAP_FRAMES
  {
    m[BITMAP_WORD + p / 32 := ClearBit(m[BITMAP_WORD + p / 32], p % 32)]
  }

  /** Setting the bit of a frame adds it to the free set. */
  lemma SetFrame(m: Memory, n: nat, p: nat)
    requires n <= BITMAP_FRAMES && p < n
    ensures FreeBelow(Released(m, p), n) == FreeBelow(m, n) + {p}
  {
  }

  /** Clearing the bit of a frame removes it. */
  lemma ClearFrame(m: Memory, n: nat, p: nat)
    requires n <= BITMAP_FRAMES && p < n
    ensures FreeBelow(Taken(m, p), n) == FreeBelow(m, n) - {p}
  {
  }

  /** A zeroed word appended to the bitmap adds no free frame. */
  lemma AppendZeroWord(m: Memory, n: nat)
    requires n < BITMAP_WORDS
    ensures FreeBelow(m[BITMAP_WORD + n := 0], 32 * (n + 1)) == FreeBelow(m, 32 * n)
  {
    var m' := m[BITMAP_WORD + n := 0];
    forall p: nat | p < 32 * (n + 1) ensures FrameBit(m', p) <==> p < 32 * n && FrameBit(m, p) {
      if p >= 32 * n { ZeroHasNoBits(p % 32); }
    }
  }

  /** Or-ing the mask of a frame into its word: the mask is the frame's bit, or 0. */
  lemma MaskFrame(m: Memory, n: nat, p: nat, mask: Word)
    requires n <= BITMAP_FRAMES && p < n
    requires mask == 0 || mask == Pow2(p % 32)
    ensures Or(m[BITMAP_WORD + p / 32], mask) < 0x1_0000_0000
    ensures m[BITMAP_WORD + p / 32 := Or(m[BITMAP_WORD + p / 32], mask)] == if mask == 0 then m else Released(m, p)
    ensures FreeBelow(m[BITMAP_WORD + p / 32 := Or(m[BITMAP_WORD + p / 32], mask)], n)
      == if mask == 0 then FreeBelow(m, n) else FreeBelow(m, n) + {p}
  {
    var i := BITMAP_WORD + p / 32;
    if mask == 0 {
      OrZero(m[i]);
      assert m[i := m[i]] == m;
    } else {
      SetFrame(m, n, p);
      assert SetBit(m[i], p % 32) == Or(m[i], mask);
    }
  }

  /** The allocator's 32-bit address arithmetic gives the frame's address modulo 4 GiB. */
  lemma AddressArithmetic(i: nat, k: nat)
    ensures (i * 0x1000 * 32 % 0x1_0000_0000 + k * 0x1000) % 0x1_0000_0000 == (32 * i + k) * 0x1000 % 0x1_0000_0000
  {
  }

  /** The first non-zero word and its lowest set bit give the lowest free frame. */
  lemma LowestInBitmap(m: Memory, n: nat, i: nat, k: nat)
    requires i < n <= BITMAP_WORDS && k < 32
    requires forall p: nat :: p < 32 * i ==> !FrameBit(m, p)
    requires var w := m[BITMAP_WORD + i]; Bit(w, k) && forall j: nat :: j < k ==> !Bit(w, j)
    ensures Lowest(FreeBelow(m, 32 * n)) == Some(32 * i + k)
  {
    assert FrameBit(m, 32 * i + k);
    forall p | p in FreeBelow(m, 32 * n) ensures 32 * i + k <= p {
      assert FrameBit(m, p);
      assert p / 32 == i ==> k <= p % 32;
    }
    LowestIs(FreeBelow(m, 32 * n), 32 * i + k);
  }

  /** Clearing that bit is what allocation means, and the computed address is its result. */
  lemma TakeLowest(m: Memory, n: nat, i: nat, k: nat)
    requires i < n <= BITMAP_WORDS && k < 32
    requires forall p: nat :: p < 32 * i ==> !FrameBit(m, p)
    requires var w := m[BITMAP_WORD + i]; Bit(w, k) && forall j: nat :: j < k ==> !Bit(w, j)
    ensures Pow2(k) < 0x1_0000_0000 && And(m[BITMAP_WORD + i], Not(Pow2(k))) < 0x1_0000_0000
    ensures Lowest(FreeBelow(m, 32 * n)) == Some(32 * i + k)
    ensures m[BITMAP_WORD + i := And(m[BITMAP_WORD + i], Not(Pow2(k)))] == Taken(m, 32 * i + k)
    ensures FreeBelow(Taken(m, 32 * i + k), 32 * n) == AfterAlloc(FreeBelow(m, 32 * n))
    ensures (i * 0x1000 * 32 % 0x1_0000_0000 + k * 0x1000) % 0x1_0000_0000 == AllocAddress(FreeBelow(m, 32 * n))
  {
    TakenWord(m, i, k);
    AddressArithmetic(i, k);
    LowestInBitmap(m, n, i, k);
    ClearFrame(m, 32 * n, 32 * i + k);
    AllocationOf(FreeBelow(m, 32 * n), 32 * i + k);
  }

  lemma AllocationOf(free: set<nat>, f: nat)
    requires Lowest(free) == Some(f)
    ensures AfterAlloc(free) == free - {f} && AllocAddress(free) == f * 0x1000 % 0x1_0000_0000
  {
  }

  /** The and-not of a word and a mask takes the mask's frame. */
  lemma TakenWord(m: Memory, i: nat, k: nat)
    requires i < BITMAP_WORDS && k < 32
    ensures Pow2(k) < 0x1_0000_0000 && And(m[BITMAP_WORD + i], Not(Pow2(k))) < 0x1_0000_0000
    ensures m[BITMAP_WORD + i := And(m[BITMAP_WORD + i], Not(Pow2(k)))] == Taken(m, 32 * i + k)
  {
    MaskInRange(k);
    assert (32 * i + k) / 32 == i && (32 * i + k) % 32 == k;
    assert ClearBit(m[BITMAP_WORD + i], k) == And(m[BITMAP_WORD + i], Not(Pow2(k)));
  }

  /** A zero word holds no free frame. */
  lemma SkipZeroWord(m: Memory, i: nat)
    requires i < BITMAP_WORDS && m[BITMAP_WORD + i] == 0
    requires forall p: nat :: p < 32 * i ==> !FrameBit(m, p)
    ensures forall p: nat :: p < 32 * (i + 1) ==> !FrameBit(m, p)
  {
    forall p: nat | p < 32 * (i + 1) ensures !FrameBit(m, p) {
      if p >= 32 * i { ZeroHasNoBits(p % 32); }
    }
  }

  /** The free set depends on the bitmap words only. */
  lemma SameBitmapSameFrames(m: Memory, m': Memory, n: nat)
    requires n <= BITMAP_FRAMES
    requires BitmapOf(m) == BitmapOf(m')
    ensures FreeBelow(m, n) == FreeBelow(m', n)
  {
  }

  /** Allocating a frame and freeing it again restores physical memory word for word. */
  lemma FreeUndoesAlloc(m: Memory, p: nat)
    requires p < BITMAP_FRAMES && FrameBit(m, p)
    ensures Released(Taken(m, p), p) == m
  {
    SetAfterClear(m[BITMAP_WORD + p / 32], p % 32);
  }
}
