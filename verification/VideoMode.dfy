/** The loader's choice of a video mode from the list the video BIOS offers. */
module VideoMode {
  import opened Wrappers
  import opened Words

  const MAX_VRAM_SIZE: nat := 0x80_0000

  /** The fields of a VBE mode information block that the loader looks at. */
  datatype ModeInfo = ModeInfo(attributes: nat, memoryModel: nat, bitsPerPixel: nat, x: nat, y: nat)
  {
    predicate Valid() {
      attributes < 0x1_0000 && memoryModel < 0x100 && bitsPerPixel < 0x100 && x < 0x1_0000 && y < 0x1_0000
    }

    function Bits(): nat { bitsPerPixel * x * y }

    function Vram(): nat { Bits() / 8 }
  }

  /** A listed mode, with what the BIOS answers to the query: nothing when it fails. */
  datatype Mode = Mode(number: nat, answer: Option<ModeInfo>)

  /** The mode information in the buffer at 0x7e00 after query i: a failed query leaves what was
      there, at first `initial`. */
  function Shown(modes: seq<Mode>, initial: ModeInfo, i: nat): ModeInfo
    requires i < |modes|
  {
    if modes[i].answer.Some? then modes[i].answer.value
    else if i == 0 then initial
    else Shown(modes, initial, i - 1)
  }

  /** The conditions on a mode: linear framebuffer in colour and graphics, direct colour, at
      least 24 bits in a signed byte, and at most 8 MiB, but not nothing. */
  predicate Fits(info: ModeInfo) {
    && And(info.attributes, 0x98) == 0x98 && info.memoryModel == 6
    && 24 <= info.bitsPerPixel < 0x80
    && 0 < info.Vram() <= MAX_VRAM_SIZE
  }

  /** In bits and bytes: attributes 3 (colour), 4 (graphics) and 7 (linear framebuffer), direct
      colour, 24 to 127 bits a pixel, and at least one and at most 8 Mi bytes. */
  lemma FitsMeans(info: ModeInfo)
    ensures Fits(info) <==>
      && Bit(info.attributes, 3) && Bit(info.attributes, 4) && Bit(info.attributes, 7)
      && info.memoryModel == 6 && 24 <= info.bitsPerPixel <= 127
      && 8 <= info.bitsPerPixel * info.x * info.y < 0x400_0008
    ensures Fits(info) ==> info.Vram() == info.bitsPerPixel * info.x * info.y / 8
  {
    AttributeBits(info.attributes);
  }

  lemma AttributeBits(a: nat)
    ensures And(a, 0x98) == 0x98 <==> Bit(a, 3) && Bit(a, 4) && Bit(a, 7)
  {
    forall k: nat ensures Bit(And(a, 0x98), k) <==> Bit(a, k) && k in {3, 4, 7} {
      BitAnd(a, 0x98, k);
      BitsOf98(k);
    }
    forall k: nat ensures Bit(0x98, k) <==> k in {3, 4, 7} {
      BitsOf98(k);
    }
    if Bit(a, 3) && Bit(a, 4) && Bit(a, 7) {
      BitsDetermine(And(a, 0x98), 0x98);
    }
  }

  lemma BitsOf98(k: nat)
    ensures Bit(0x98, k) <==> k in {3, 4, 7}
  {
    if k < 4 {
      BitShifted(0x98, k, 0x4c, 0x26, 0x13);
    } else if k < 8 {
      assert Bit(0x98, k) == Bit(0x4c, k - 1) == Bit(0x26, k - 2) == Bit(0x13, k - 3) == Bit(0x9, k - 4);
      BitShifted(0x9, k - 4, 0x4, 0x2, 0x1);
    } else {
      Pow2Values();
      HighBitsClear(8, 0x98, k);
    }
  }

  /** The four lowest bits, from the number and its halves. */
  lemma BitShifted(a: nat, k: nat, half: nat, quarter: nat, eighth: nat)
    requires half == a / 2 && quarter == a / 4 && eighth == a / 8
    ensures k == 0 ==> (Bit(a, k) <==> a % 2 == 1)
    ensures k == 1 ==> (Bit(a, k) <==> half % 2 == 1)
    ensures k == 2 ==> (Bit(a, k) <==> quarter % 2 == 1)
    ensures k == 3 ==> (Bit(a, k) <==> eighth % 2 == 1)
  {
    assert half / 2 == quarter && quarter / 2 == eighth;
    if k == 3 { assert Bit(a, 3) == Bit(half, 2) == Bit(quarter, 1) == Bit(eighth, 0); }
    if k == 2 { assert Bit(a, 2) == Bit(half, 1) == Bit(quarter, 0); }
    if k == 1 { assert Bit(a, 1) == Bit(half, 0); }
  }

  /** The video memory of the mode shown after query i, or 0 when it does not fit. */
  function FittingVram(modes: seq<Mode>, initial: ModeInfo, i: nat): nat
    requires i < |modes|
  {
    if Fits(Shown(modes, initial, i)) then Shown(modes, initial, i).Vram() else 0
  }

  /** Among the first n modes, mode k is the first of the largest that fit. */
  ghost predicate IsBestOf(modes: seq<Mode>, initial: ModeInfo, k: nat, n: nat)
    requires n <= |modes|
  {
    && k < n && FittingVram(modes, initial, k) > 0
    && (forall i: nat :: i < n ==> FittingVram(modes, initial, i) <= FittingVram(modes, initial, k))
    && (forall i: nat :: i < k ==> FittingVram(modes, initial, i) < FittingVram(modes, initial, k))
  }

  ghost predicate IsBest(modes: seq<Mode>, initial: ModeInfo, k: nat) {
    IsBestOf(modes, initial, k, |modes|)
  }

  ghost predicate NoneFits(modes: seq<Mode>, initial: ModeInfo, n: nat)
    requires n <= |modes|
  {
    forall i: nat :: i < n ==> FittingVram(modes, initial, i) == 0
  }

  /** All queries answer with well-formed blocks whose size in bits stays below 2^35, so that
      the 32-bit division by 8 does not overflow. */
  ghost predicate Answerable(modes: seq<Mode>, initial: ModeInfo) {
    && initial.Valid() && initial.Bits() < 0x8_0000_0000
    && forall i :: 0 <= i < |modes| ==>
         && modes[i].number < 0xffff
         && (modes[i].answer.Some? ==>
               modes[i].answer.value.Valid() && modes[i].answer.value.Bits() < 0x8_0000_0000)
  }

  lemma {:induction false} ShownValid(modes: seq<Mode>, initial: ModeInfo, i: nat)
    requires Answerable(modes, initial) && i < |modes|
    ensures Shown(modes, initial, i).Valid() && Shown(modes, initial, i).Bits() < 0x8_0000_0000
  {
    if modes[i].answer == None && i > 0 { ShownValid(modes, initial, i - 1); }
  }

  /** A two's-complement reading of 32 bits, for the signed jumps. */
  function Signed32(w: nat): int {
    if w < 0x8000_0000 then w else w - 0x1_0000_0000
  }

  function Signed8(b: nat): int {
    if b < 0x80 then b else b - 0x100
  }

  /** is_suitable_video_mode: whether the mode is taken, and the new SuitableModeVRAM. */
  method IsSuitable(info: ModeInfo, suitableModeVram: nat) returns (taken: bool, vram: nat)
    requires info.Valid() && info.Bits() < 0x8_0000_0000 && suitableModeVram <= MAX_VRAM_SIZE
    ensures taken <==> Fits(info) && info.Vram() > suitableModeVram
    ensures vram == if taken then info.Vram() else suitableModeVram
  {
    taken, vram := false, suitableModeVram;
    if And(info.attributes, 0x98) != 0x98 {
      return;
    }
    if info.memoryModel != 0x06 {
      return;
    }
    if Signed8(info.bitsPerPixel) < 24 {
      return;
    }
    var eax := info.bitsPerPixel * info.x;
    eax := eax * info.y / 8;
    if Signed32(eax) > MAX_VRAM_SIZE {
      return;
    }
    if Signed32(eax) <= suitableModeVram {
      return;
    }
    taken, vram := true, eax;
  }

  /** set_suitable_video_mode, up to the choice: 0xffff when no mode fits. The list is walked
      at least once, as the loop tests for its end at the bottom. */
  method ChooseMode(modes: seq<Mode>, initial: ModeInfo) returns (videoMode: nat, ghost k: nat)
    requires modes != [] && Answerable(modes, initial)
    ensures videoMode != 0xffff ==> IsBest(modes, initial, k) && videoMode == modes[k].number
    ensures videoMode == 0xffff <==> NoneFits(modes, initial, |modes|)
  {
    videoMode, k := 0xffff, 0;
    var vram := 0;
    var buffer := initial;
    var i := 0;
    while i < |modes|
      invariant i <= |modes| && vram <= MAX_VRAM_SIZE
      invariant buffer == if i == 0 then initial else Shown(modes, initial, i - 1)
      invariant videoMode == 0xffff ==> vram == 0 && NoneFits(modes, initial, i)
      invariant videoMode != 0xffff ==> IsBestOf(modes, initial, k, i)
      invariant videoMode != 0xffff ==> vram == FittingVram(modes, initial, k) && videoMode == modes[k].number
    {
      if modes[i].answer.Some? {
        buffer := modes[i].answer.value;
      }
      ShownValid(modes, initial, i);
      var taken;
      taken, vram := TakeIfBetter(modes, initial, i, buffer, vram);
      if taken {
        videoMode, k := modes[i].number, i;
      }
      i := i + 1;
    }
  }

  /** IsSuitable, in terms of the list. */
  method TakeIfBetter(ghost modes: seq<Mode>, ghost initial: ModeInfo, ghost i: nat, buffer: ModeInfo, vram: nat)
    returns (taken: bool, vram': nat)
    requires i < |modes| && buffer == Shown(modes, initial, i)
    requires buffer.Valid() && buffer.Bits() < 0x8_0000_0000 && vram <= MAX_VRAM_SIZE
    ensures taken <==> FittingVram(modes, initial, i) > vram
    ensures vram' == if taken then FittingVram(modes, initial, i) else vram
    ensures vram' <= MAX_VRAM_SIZE
  {
    taken, vram' := IsSuitable(buffer, vram);
  }

  /** A failed query is chosen only if it is the very first: any later one shows again what
      was shown before it, and a later mode must be strictly larger. */
  lemma FailedQueryNotChosen(modes: seq<Mode>, initial: ModeInfo, k: nat)
    requires k < |modes| && modes[k].answer == None && IsBest(modes, initial, k)
    ensures k == 0 && Fits(initial)
  {
    ShownAgain(modes, initial, k);
  }

  lemma ShownAgain(modes: seq<Mode>, initial: ModeInfo, k: nat)
    requires k < |modes| && modes[k].answer == None
    ensures k > 0 ==> FittingVram(modes, initial, k) == FittingVram(modes, initial, k - 1)
  {
  }

  /** A mode whose query failed is chosen exactly when the first query fails on a buffer that
      happens to hold a fitting block, and no mode shown after it is larger. */
  lemma FailedQueryChosenExactly(modes: seq<Mode>, initial: ModeInfo)
    requires modes != []
    ensures (exists k: nat :: k < |modes| && modes[k].answer == None && IsBest(modes, initial, k)) <==>
      && modes[0].answer == None && Fits(initial)
      && forall i: nat :: i < |modes| ==> FittingVram(modes, initial, i) <= initial.Vram()
  {
    forall k: nat | k < |modes| && modes[k].answer == None && IsBest(modes, initial, k)
      ensures k == 0 && Fits(initial)
    {
      FailedQueryNotChosen(modes, initial, k);
    }
    assert modes[0].answer == None ==> Shown(modes, initial, 0) == initial;
    if modes[0].answer == None && Fits(initial)
      && forall i: nat :: i < |modes| ==> FittingVram(modes, initial, i) <= initial.Vram()
    {
      assert IsBest(modes, initial, 0);
    }
  }

  /** 640 by 480 in 24 bits. */
  const LEFT_OVER: ModeInfo := ModeInfo(0x98, 6, 24, 640, 480)

  /** A concrete case: the query of mode 0x101 fails on such a block, and the loader prefers
      mode 0x101 to mode 0x112, which really has that size. */
  lemma StaleModeChosen()
    ensures IsBest([Mode(0x101, None), Mode(0x112, Some(LEFT_OVER))], LEFT_OVER, 0)
  {
    var modes := [Mode(0x101, None), Mode(0x112, Some(LEFT_OVER))];
    assert And(0x98, 0x98) == 0x98;
    FailedQueryChosenExactly(modes, LEFT_OVER);
    FailedQueryNotChosen(modes, LEFT_OVER, 0);
  }

  /** A mode that fits has its whole screen inside the 8 MiB window, three bytes a pixel or more. */
  lemma FitsWindow(info: ModeInfo)
    requires Fits(info)
    ensures info.x * info.y * (info.bitsPerPixel / 8) <= MAX_VRAM_SIZE
    ensures info.bitsPerPixel / 8 >= 3
  {
    var n, b := info.x * info.y, info.bitsPerPixel;
    assert b * info.x * info.y == b * n;
    BytesBelowBits(n, b);
  }

  lemma BytesBelowBits(n: nat, b: nat)
    ensures n * (b / 8) <= b * n / 8
  {
    var q, r := b / 8, b % 8;
    assert b * n == 8 * (n * q) + r * n by { assert b == 8 * q + r; }
  }
}
